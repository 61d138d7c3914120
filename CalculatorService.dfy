// The calculator service: two unary calls (a four-way arithmetic switch and a
// guarded square root), a server-streaming prime factor decomposer, a
// client-streaming running average and a bidirectional running maximum.
//
// A `double` is modelled as a `real`; the one place where an IEEE result that
// is not a finite number can leave the service (a division by zero that the
// guard lets through) is modelled by the `Double` datatype.
module CalculatorService {
  import opened CallContext
  import opened Wire

  // ---------------------------------------------------------------------
  // Replies and errors
  // ---------------------------------------------------------------------

  /** The one status code the service fails calls with. */
  datatype StatusCode = InvalidArgument

  /** An IEEE double as far as this service can produce one. */
  datatype Double = Finite(value: real) | PositiveInfinity | NegativeInfinity | NaN

  /** A unary call either replies with its `Result` field or fails with a status. */
  datatype Response = Reply(result: Double) | Failure(code: StatusCode, detail: string)

  const DivisionByZeroDetail: string := "Division by zero is not allowed."
  const NegativeSquareRootDetail: string := "Cannot calculate square root of a negative number."

  // ---------------------------------------------------------------------
  // SimpleCalculation and SquareRoot (unary)
  // ---------------------------------------------------------------------

  /**
   * The request's operation. The message's enum field can hold a value that
   * names none of the four operations; that is `Unrecognized`.
   */
  datatype Operation = Add | Subtract | Multiply | Divide | Unrecognized(code: int)

  datatype Calculation = Calculation(firstNumber: real, operation: Operation, secondNumber: real)

  /**
   * IEEE division of two finite doubles (rounding aside): a finite quotient
   * for a non-zero divisor, and for a zero divisor an infinity of the sign of
   * the dividend, or NaN for 0 / 0.
   */
  function DoubleQuotient(a: real, b: real): (r: Double)
    ensures r.Finite? <==> b != 0.0
    ensures r.Finite? ==> r.value * b == a
    ensures r == PositiveInfinity <==> b == 0.0 && a > 0.0
    ensures r == NegativeInfinity <==> b == 0.0 && a < 0.0
    ensures r == NaN <==> b == 0.0 && a == 0.0
  {
    if b != 0.0 then Finite(a / b)
    else if a > 0.0 then PositiveInfinity
    else if a < 0.0 then NegativeInfinity
    else NaN
  }

  /**
   * The unary calculator. The Divide guard is the one the service has: it
   * rejects a NEGATIVE divisor and lets a zero divisor through, so that
   * dividing by zero replies with an infinity or NaN.
   */
  function SimpleCalculation(c: Calculation): (r: Response)
    ensures r.Failure? <==> c.operation == Divide && c.secondNumber < 0.0
    ensures r.Failure? ==> r == Failure(InvalidArgument, DivisionByZeroDetail)
    ensures r.Reply? && !r.result.Finite? <==> c.operation == Divide && c.secondNumber == 0.0
    ensures c.operation == Add ==> r == Reply(Finite(c.firstNumber + c.secondNumber))
    ensures c.operation == Subtract ==> r == Reply(Finite(c.firstNumber - c.secondNumber))
    ensures c.operation == Multiply ==> r == Reply(Finite(c.firstNumber * c.secondNumber))
    ensures c.operation == Divide && c.secondNumber > 0.0 ==> r == Reply(Finite(c.firstNumber / c.secondNumber))
    ensures c.operation == Divide && c.secondNumber == 0.0 ==> r == Reply(DoubleQuotient(c.firstNumber, 0.0))
    ensures c.operation.Unrecognized? ==> r == Reply(Finite(0.0))
  {
    match c.operation
    case Add => Reply(Finite(c.firstNumber + c.secondNumber))
    case Subtract => Reply(Finite(c.firstNumber - c.secondNumber))
    case Multiply => Reply(Finite(c.firstNumber * c.secondNumber))
    case Divide =>
      if c.secondNumber < 0.0 then Failure(InvalidArgument, DivisionByZeroDetail)
      else Reply(DoubleQuotient(c.firstNumber, c.secondNumber))
    case Unrecognized(_) => Reply(Finite(0.0))
  }

  /** Subtracting the second number undoes adding it. */
  lemma SubtractUndoesAdd(a: real, b: real)
    ensures SimpleCalculation(Calculation(a, Add, b)).Reply?
    ensures SimpleCalculation(Calculation(a, Add, b)).result.Finite?
    ensures var sum := SimpleCalculation(Calculation(a, Add, b)).result.value;
            SimpleCalculation(Calculation(sum, Subtract, b)) == Reply(Finite(a))
  {
  }

  /** Dividing by a positive number undoes multiplying by it. */
  lemma DivideUndoesMultiply(a: real, b: real)
    requires b > 0.0
    ensures SimpleCalculation(Calculation(a, Multiply, b)).Reply?
    ensures SimpleCalculation(Calculation(a, Multiply, b)).result.Finite?
    ensures var product := SimpleCalculation(Calculation(a, Multiply, b)).result.value;
            SimpleCalculation(Calculation(product, Divide, b)) == Reply(Finite(a))
  {
  }

  /** The demonstration request 10 * 20. */
  lemma MultiplyScenario()
    ensures SimpleCalculation(Calculation(10.0, Multiply, 20.0)) == Reply(Finite(200.0))
  {
  }

  /**
   * The square root call. `Math.Sqrt` is a library call, so its value is the
   * parameter `sqrt`; what is modelled is the guard in front of it.
   */
  function SquareRoot(number: real, sqrt: real -> real): (r: Response)
    ensures r.Failure? <==> number < 0.0
    ensures r.Failure? ==> r == Failure(InvalidArgument, NegativeSquareRootDetail)
    ensures r.Reply? ==> r.result == Finite(sqrt(number))
  {
    if number < 0.0 then Failure(InvalidArgument, NegativeSquareRootDetail)
    else Reply(Finite(sqrt(number)))
  }

  /** A rejected radicand never reaches `Math.Sqrt`: the reply does not depend on it. */
  lemma SquareRootGuardIgnoresSqrt(number: real, sqrt1: real -> real, sqrt2: real -> real)
    requires number < 0.0
    ensures SquareRoot(number, sqrt1) == SquareRoot(number, sqrt2)
  {
  }

  // ---------------------------------------------------------------------
  // Divide guard: as written and as evidently intended
  // ---------------------------------------------------------------------

  /**
   * As written, the guard lets a zero divisor through (the reply is an
   * infinity) and rejects the well-defined division 10 / -2.
   */
  lemma DivideGuardAsWritten()
    ensures SimpleCalculation(Calculation(10.0, Divide, 0.0)) == Reply(PositiveInfinity)
    ensures SimpleCalculation(Calculation(0.0, Divide, 0.0)) == Reply(NaN)
    ensures SimpleCalculation(Calculation(10.0, Divide, -2.0)).Failure?
  {
  }

  /** The calculator with the guard its error message describes: reject a zero divisor. */
  function SimpleCalculationIntended(c: Calculation): (r: Response)
    ensures r.Failure? <==> c.operation == Divide && c.secondNumber == 0.0
    ensures r.Failure? ==> r == Failure(InvalidArgument, DivisionByZeroDetail)
    ensures r.Reply? ==> r.result.Finite?
    ensures r.Reply? && c.operation == Divide ==> r.result.value * c.secondNumber == c.firstNumber
    ensures c.operation != Divide ==> r == SimpleCalculation(c)
  {
    if c.operation == Divide && c.secondNumber == 0.0 then Failure(InvalidArgument, DivisionByZeroDetail)
    else if c.operation == Divide then Reply(Finite(c.firstNumber / c.secondNumber))
    else SimpleCalculation(c)
  }

  // ---------------------------------------------------------------------
  // DecomposeIntoPrimes (server streaming)
  // ---------------------------------------------------------------------

  predicate Divides(k: int, q: int)
    requires k > 0
  {
    q % k == 0
  }

  /** No candidate divisor below `d` divides `q`. */
  ghost predicate NoFactorBelow(q: int, d: int) {
    forall k :: 2 <= k < d ==> !Divides(k, q)
  }

  ghost predicate IsPrime(p: int) {
    p >= 2 && NoFactorBelow(p, p)
  }

  ghost predicate NonDecreasing(s: seq<int>) {
    forall i, j :: 0 <= i <= j < |s| ==> s[i] <= s[j]
  }

  function Product(s: seq<int>): int {
    if s == [] then 1 else s[0] * Product(s[1..])
  }

  lemma ModOfMultiple(k: int, m: int)
    requires k > 0
    ensures Divides(k, k * m)
  {
    var q, r := (k * m) / k, (k * m) % k;
    assert k * (m - q) == r;
    assert m - q >= 1 ==> k * (m - q) >= k;
    assert m - q <= -1 ==> k * (m - q) <= -k;
  }

  lemma DividesTransitive(k: int, d: int, q: int)
    requires k > 0 && d > 0
    requires Divides(k, d) && Divides(d, q)
    ensures Divides(k, q)
  {
    var a, b := q / d, d / k;
    assert q == d * a;
    assert d == k * b;
    assert q == k * (b * a);
    ModOfMultiple(k, b * a);
  }

  /** While the quotient exceeds 1, the divisor does not exceed it. */
  lemma DivisorBounded(q: int, d: int)
    requires q > 1 && NoFactorBelow(q, d)
    ensures d <= q
  {
    assert Divides(q, q);
  }

  lemma QuotientBounds(q: int, d: int, a: int)
    requires q > 1 && d >= 2 && q == d * a
    ensures 1 <= a < q
  {
    assert a <= 0 ==> d * a <= 0;
    assert a >= 1 ==> d * a >= 2 * a;
  }

  /** Dividing the divisor out shrinks the quotient and keeps every candidate below it a non-divisor. */
  lemma HitStep(q: int, d: int)
    requires q > 1 && 2 <= d && NoFactorBelow(q, d) && Divides(d, q)
    ensures q == d * (q / d) && 1 <= q / d < q
    ensures q / d <= 1 || NoFactorBelow(q / d, d)
  {
    DivisorBounded(q, d);
    var a := q / d;
    assert q == d * a;
    QuotientBounds(q, d, a);
    if a > 1 {
      ModOfMultiple(a, d);
      forall k | 2 <= k < d
        ensures !Divides(k, a)
      {
        if Divides(k, a) {
          DividesTransitive(k, a, q);
        }
      }
    }
  }

  /** A divisor that misses can be grown without passing the quotient. */
  lemma MissStep(q: int, d: int)
    requires q > 1 && 2 <= d && NoFactorBelow(q, d) && !Divides(d, q)
    ensures d < q && NoFactorBelow(q, d + 1)
  {
    DivisorBounded(q, d);
    assert Divides(q, q);
  }

  /**
   * The factors trial division emits from quotient `q` and divisor `d` when
   * the call is never cancelled.
   */
  ghost function PrimeFactors(q: int, d: int): seq<int>
    requires 2 <= d
    requires q <= 1 || NoFactorBelow(q, d)
    decreases q, q - d
  {
    if q <= 1 then []
    else if Divides(d, q) then
      HitStep(q, d);
      [d] + PrimeFactors(q / d, d)
    else
      MissStep(q, d);
      PrimeFactors(q, d + 1)
  }

  /** The uncancelled output for a request `number`. */
  ghost function PrimeFactorsOf(number: int): seq<int> {
    PrimeFactors(number, 2)
  }

  lemma {:induction false} PrimeFactorsProduct(q: int, d: int)
    requires 2 <= d && 1 <= q && NoFactorBelow(q, d)
    ensures Product(PrimeFactors(q, d)) == q
    decreases q, q - d
  {
    if q > 1 {
      if Divides(d, q) {
        HitStep(q, d);
        var rest := PrimeFactors(q / d, d);
        PrimeFactorsProduct(q / d, d);
        assert ([d] + rest)[1..] == rest;
        assert Product([d] + rest) == d * Product(rest);
      } else {
        MissStep(q, d);
        PrimeFactorsProduct(q, d + 1);
      }
    }
  }

  lemma {:induction false} PrimeFactorsArePrime(q: int, d: int)
    requires 2 <= d && (q <= 1 || NoFactorBelow(q, d))
    ensures forall p :: p in PrimeFactors(q, d) ==> IsPrime(p)
    decreases q, q - d
  {
    if q > 1 {
      if Divides(d, q) {
        HitStep(q, d);
        forall k | 2 <= k < d
          ensures !Divides(k, d)
        {
          if Divides(k, d) {
            DividesTransitive(k, d, q);
          }
        }
        assert IsPrime(d);
        PrimeFactorsArePrime(q / d, d);
      } else {
        MissStep(q, d);
        PrimeFactorsArePrime(q, d + 1);
      }
    }
  }

  lemma {:induction false} PrimeFactorsAscending(q: int, d: int)
    requires 2 <= d && (q <= 1 || NoFactorBelow(q, d))
    ensures NonDecreasing(PrimeFactors(q, d))
    ensures forall i :: 0 <= i < |PrimeFactors(q, d)| ==> d <= PrimeFactors(q, d)[i]
    decreases q, q - d
  {
    if q > 1 {
      if Divides(d, q) {
        HitStep(q, d);
        PrimeFactorsAscending(q / d, d);
        var rest := PrimeFactors(q / d, d);
        var s := [d] + rest;
        assert PrimeFactors(q, d) == s;
        forall i, j | 0 <= i <= j < |s|
          ensures s[i] <= s[j]
        {
          if j > 0 {
            assert s[j] == rest[j - 1];
            if i > 0 {
              assert s[i] == rest[i - 1];
            }
          }
        }
      } else {
        MissStep(q, d);
        PrimeFactorsAscending(q, d + 1);
      }
    }
  }

  /**
   * What the uncancelled decomposition of `number` is: nothing for
   * `number <= 1`, otherwise prime factors in non-decreasing order whose
   * product is `number`.
   */
  lemma PrimeFactorsOfIsFactorization(number: int)
    ensures number <= 1 ==> PrimeFactorsOf(number) == []
    ensures number >= 1 ==> Product(PrimeFactorsOf(number)) == number
    ensures forall p :: p in PrimeFactorsOf(number) ==> IsPrime(p)
    ensures NonDecreasing(PrimeFactorsOf(number))
  {
    if number >= 1 {
      PrimeFactorsProduct(number, 2);
    }
    PrimeFactorsArePrime(number, 2);
    PrimeFactorsAscending(number, 2);
  }

  /** How many loop iterations trial division runs from quotient `q` and divisor `d` when never cancelled. */
  ghost function Steps(q: int, d: int): nat
    requires 2 <= d
    requires q <= 1 || NoFactorBelow(q, d)
    decreases q, q - d
  {
    if q <= 1 then 0
    else if Divides(d, q) then
      HitStep(q, d);
      1 + Steps(q / d, d)
    else
      MissStep(q, d);
      1 + Steps(q, d + 1)
  }

  /** The factors written during the first `k` loop iterations from quotient `q` and divisor `d`. */
  ghost function EmittedWithin(q: int, d: int, k: nat): seq<int>
    requires 2 <= d
    requires q <= 1 || NoFactorBelow(q, d)
    decreases q, q - d
  {
    if q <= 1 || k == 0 then []
    else if Divides(d, q) then
      HitStep(q, d);
      [d] + EmittedWithin(q / d, d, k - 1)
    else
      MissStep(q, d);
      EmittedWithin(q, d + 1, k - 1)
  }

  /**
   * Stopping after `k` iterations writes a prefix of the full factorization,
   * and all of it exactly when the loop would have finished within `k`
   * iterations: stopping any earlier leaves at least one factor unwritten.
   */
  lemma {:induction false} EmittedWithinPrefix(q: int, d: int, k: nat)
    requires 2 <= d && (q <= 1 || NoFactorBelow(q, d))
    ensures EmittedWithin(q, d, k) <= PrimeFactors(q, d)
    ensures EmittedWithin(q, d, k) == PrimeFactors(q, d) <==> k >= Steps(q, d)
    decreases q, q - d
  {
    if q > 1 {
      if k == 0 {
        PrimeFactorsProduct(q, d);
        assert PrimeFactors(q, d) != [];
      } else if Divides(d, q) {
        HitStep(q, d);
        EmittedWithinPrefix(q / d, d, k - 1);
        var emitted, full := EmittedWithin(q / d, d, k - 1), PrimeFactors(q / d, d);
        assert ([d] + emitted)[1..] == emitted;
        assert ([d] + full)[1..] == full;
        assert emitted <= full ==> [d] + emitted <= [d] + full;
      } else {
        MissStep(q, d);
        EmittedWithinPrefix(q, d + 1, k - 1);
      }
    }
  }

  /** One loop iteration from a quotient above 1, as `Steps` and `EmittedWithin` see it. */
  lemma IterationStep(q: int, d: int, k: nat)
    requires q > 1 && 2 <= d && NoFactorBelow(q, d) && k >= 1
    ensures d <= q
    ensures Divides(d, q) ==>
              1 <= q / d < q && (q / d <= 1 || NoFactorBelow(q / d, d)) &&
              Steps(q, d) == 1 + Steps(q / d, d) &&
              EmittedWithin(q, d, k) == [d] + EmittedWithin(q / d, d, k - 1)
    ensures !Divides(d, q) ==>
              d < q && NoFactorBelow(q, d + 1) &&
              Steps(q, d) == 1 + Steps(q, d + 1) &&
              EmittedWithin(q, d, k) == EmittedWithin(q, d + 1, k - 1)
  {
    DivisorBounded(q, d);
    if Divides(d, q) {
      HitStep(q, d);
    } else {
      MissStep(q, d);
    }
  }

  /**
   * What the response stream is when the loop stops at the first iteration
   * that sees the token set: a prefix of the factorization, all of it
   * exactly when no iteration the loop runs sees the token set, and nothing
   * when the request is at most 1 or the very first check sees it set.
   */
  lemma EmittedBeforeCancellation(number: int, token: seq<bool>)
    ensures var stream := EmittedWithin(number, 2, Consumed(token, Steps(number, 2)));
            && stream <= PrimeFactorsOf(number)
            && (stream == PrimeFactorsOf(number) <==>
                  forall j :: 0 <= j < Steps(number, 2) ==> !CancellationRequested(token, j))
            && (NeverRequested(token) ==> stream == PrimeFactorsOf(number))
            && (number <= 1 || CancellationRequested(token, 0) ==> stream == [])
  {
    var steps := Steps(number, 2);
    EmittedWithinPrefix(number, 2, Consumed(token, steps));
    if NeverRequested(token) {
      NeverRequestedConsumesAll(token, steps);
    }
  }

  /**
   * The server-streaming decomposer: `primeFactors` is the response stream.
   * The token is checked at the top of every iteration, before any write, so
   * the stream holds exactly the factors of the iterations run before the
   * token was first seen set.
   */
  method DecomposeIntoPrimes(number: Int32, token: seq<bool>) returns (primeFactors: seq<Int32>)
    ensures primeFactors == EmittedWithin(number, 2, Consumed(token, Steps(number, 2)))
    ensures primeFactors <= PrimeFactorsOf(number)
    ensures primeFactors == PrimeFactorsOf(number) <==>
              forall j :: 0 <= j < Steps(number, 2) ==> !CancellationRequested(token, j)
    ensures NeverRequested(token) ==> primeFactors == PrimeFactorsOf(number)
    ensures number <= 1 || CancellationRequested(token, 0) ==> primeFactors == []
  {
    ghost var steps := Steps(number, 2);
    ghost var consumed := Consumed(token, steps);
    var q: int := number;
    var divisor := 2;
    var iteration := 0;
    primeFactors := [];
    while q > 1
      invariant 2 <= divisor && q <= number
      invariant q <= 1 || NoFactorBelow(q, divisor)
      invariant iteration + Steps(q, divisor) == steps
      invariant forall j :: 0 <= j < iteration ==> !CancellationRequested(token, j)
      invariant iteration <= consumed
      invariant primeFactors + EmittedWithin(q, divisor, consumed - iteration) == EmittedWithin(number, 2, consumed)
      decreases q, q - divisor
    {
      if CancellationRequested(token, iteration) {
        ConsumedIsFirstRequest(token, steps, iteration);
        break;
      }
      IterationStep(q, divisor, consumed - iteration);
      if q % divisor == 0 {
        ghost var rest := EmittedWithin(q / divisor, divisor, consumed - iteration - 1);
        assert (primeFactors + [divisor]) + rest == primeFactors + ([divisor] + rest);
        q := q / divisor;
        primeFactors := primeFactors + [divisor];
      } else {
        divisor := divisor + 1;
      }
      iteration := iteration + 1;
    }
    EmittedBeforeCancellation(number, token);
  }

  // ---------------------------------------------------------------------
  // AverageCalculation (client streaming)
  // ---------------------------------------------------------------------

  function Sum(s: seq<real>): real {
    if s == [] then 0.0 else Sum(s[..|s| - 1]) + s[|s| - 1]
  }

  /** The reply's value for the numbers read: their mean, and 0 for none. */
  function Mean(s: seq<real>): real {
    if |s| == 0 then 0.0 else Sum(s) / |s| as real
  }

  lemma {:induction false} SumBounds(s: seq<real>, lo: real, hi: real)
    requires forall i :: 0 <= i < |s| ==> lo <= s[i] <= hi
    ensures |s| as real * lo <= Sum(s) <= |s| as real * hi
  {
    if s != [] {
      var init := s[..|s| - 1];
      assert forall i :: 0 <= i < |init| ==> init[i] == s[i];
      SumBounds(init, lo, hi);
      assert |s| as real * lo == |init| as real * lo + lo;
      assert |s| as real * hi == |init| as real * hi + hi;
    }
  }

  lemma QuotientBetween(total: real, n: real, lo: real, hi: real)
    requires n > 0.0
    requires n * lo <= total <= n * hi
    ensures lo <= total / n <= hi
  {
    var m := total / n;
    assert m * n == total;
    assert (m - lo) * n == total - n * lo;
    assert (hi - m) * n == n * hi - total;
    assert m < lo ==> (m - lo) * n < 0.0;
    assert m > hi ==> (hi - m) * n < 0.0;
  }

  /** The mean lies between any lower and upper bound of the numbers. */
  lemma MeanBounds(s: seq<real>, lo: real, hi: real)
    requires |s| > 0
    requires forall i :: 0 <= i < |s| ==> lo <= s[i] <= hi
    ensures lo <= Mean(s) <= hi
  {
    SumBounds(s, lo, hi);
    QuotientBetween(Sum(s), |s| as real, lo, hi);
  }

  /** A stream of one repeated number averages to that number. */
  lemma MeanOfConstant(s: seq<real>, c: real)
    requires forall i :: 0 <= i < |s| ==> s[i] == c
    ensures Mean(s) == if |s| == 0 then 0.0 else c
  {
    if |s| > 0 {
      MeanBounds(s, c, c);
    }
  }

  /** The demonstration stream 10, 20, 30, 40, 50. */
  lemma AverageScenario()
    ensures Mean([10.0, 20.0, 30.0, 40.0, 50.0]) == 30.0
  {
    assert [10.0][..0] == [];
    assert Sum([10.0]) == 10.0;
    assert [10.0, 20.0][..1] == [10.0];
    assert Sum([10.0, 20.0]) == 30.0;
    assert [10.0, 20.0, 30.0][..2] == [10.0, 20.0];
    assert Sum([10.0, 20.0, 30.0]) == 60.0;
    assert [10.0, 20.0, 30.0, 40.0][..3] == [10.0, 20.0, 30.0];
    assert Sum([10.0, 20.0, 30.0, 40.0]) == 100.0;
    assert [10.0, 20.0, 30.0, 40.0, 50.0][..4] == [10.0, 20.0, 30.0, 40.0];
    assert Sum([10.0, 20.0, 30.0, 40.0, 50.0]) == 150.0;
  }

  /**
   * The client-streaming average: the reply is the mean of the numbers read
   * before the token was seen set (all of them when it never is).
   */
  method AverageCalculation(requests: seq<real>, token: seq<bool>) returns (averageResult: real)
    ensures averageResult == Mean(requests[..Consumed(token, |requests|)])
    ensures NeverRequested(token) ==> averageResult == Mean(requests)
    ensures Consumed(token, |requests|) == 0 ==> averageResult == 0.0
  {
    var sum := 0.0;
    var count := 0;
    var i := 0;
    while i < |requests|
      invariant 0 <= i <= |requests|
      invariant forall j :: 0 <= j < i ==> !CancellationRequested(token, j)
      invariant count == i && sum == Sum(requests[..i])
    {
      if CancellationRequested(token, i) {
        break;
      }
      assert requests[..i + 1][..i] == requests[..i];
      sum := sum + requests[i];
      count := count + 1;
      i := i + 1;
    }
    ConsumedIsFirstRequest(token, |requests|, i);
    averageResult := if count == 0 then 0.0 else sum / count as real;
    if NeverRequested(token) {
      NeverRequestedConsumesAll(token, |requests|);
      assert requests[..|requests|] == requests;
    }
  }

  // ---------------------------------------------------------------------
  // FindCurrentMax (bidirectional streaming)
  // ---------------------------------------------------------------------

  /** `double.MinValue`, exactly: -(2^1024 - 2^971). */
  const Lowest: real := -179769313486231570814527423731704356798070567525844996598917476803157260780028538760589558632766878171540458953514382464234321326889464182768467546703537516986049910576551282076245490090389328944075868508455133942304583236903222948165808559332123348274797826204144723168738177180919299881250404026184124858368.0

  /** The current maximum after reading `s`, updated only by a strictly larger number. */
  function RunningMax(s: seq<real>): real {
    if s == [] then Lowest
    else
      var m := RunningMax(s[..|s| - 1]);
      if s[|s| - 1] > m then s[|s| - 1] else m
  }

  /** The running maximum bounds every number read and the initial value, and is one of them. */
  lemma {:induction false} RunningMaxIsMaximum(s: seq<real>)
    ensures Lowest <= RunningMax(s)
    ensures forall i :: 0 <= i < |s| ==> s[i] <= RunningMax(s)
    ensures RunningMax(s) == Lowest || RunningMax(s) in s
  {
    if s != [] {
      var init := s[..|s| - 1];
      RunningMaxIsMaximum(init);
      assert forall i :: 0 <= i < |init| ==> init[i] == s[i];
      assert RunningMax(init) in init ==> RunningMax(init) in s;
    }
  }

  /** Reading more never lowers the running maximum. */
  lemma {:induction false} RunningMaxMonotone(s: seq<real>, k: nat)
    requires k <= |s|
    ensures RunningMax(s[..k]) <= RunningMax(s)
  {
    if k < |s| {
      var init := s[..|s| - 1];
      RunningMaxMonotone(init, k);
      assert init[..k] == s[..k];
    } else {
      assert s[..k] == s;
    }
  }

  /**
   * The bidirectional maximum: one response per number read, each the
   * running maximum so far, until the inbound stream ends or the token is
   * seen set.
   */
  method FindCurrentMax(requests: seq<real>, token: seq<bool>) returns (responses: seq<real>)
    ensures |responses| == Consumed(token, |requests|)
    ensures forall i :: 0 <= i < |responses| ==> responses[i] == RunningMax(requests[..i + 1])
    ensures forall i :: 0 <= i < |responses| ==> requests[i] <= responses[i]
    ensures forall i, j :: 0 <= i <= j < |responses| ==> responses[i] <= responses[j]
  {
    var currentMax := Lowest;
    responses := [];
    var i := 0;
    while i < |requests|
      invariant 0 <= i <= |requests|
      invariant |responses| == i
      invariant forall j :: 0 <= j < i ==> !CancellationRequested(token, j)
      invariant currentMax == RunningMax(requests[..i])
      invariant forall j :: 0 <= j < i ==> responses[j] == RunningMax(requests[..j + 1])
    {
      if CancellationRequested(token, i) {
        break;
      }
      assert requests[..i + 1][..i] == requests[..i];
      if requests[i] > currentMax {
        currentMax := requests[i];
      }
      responses := responses + [currentMax];
      i := i + 1;
    }
    ConsumedIsFirstRequest(token, |requests|, i);
    forall j | 0 <= j < |responses|
      ensures requests[j] <= responses[j]
    {
      RunningMaxIsMaximum(requests[..j + 1]);
    }
    forall a, b | 0 <= a <= b < |responses|
      ensures responses[a] <= responses[b]
    {
      RunningMaxMonotone(requests[..b + 1], a + 1);
      assert requests[..b + 1][..a + 1] == requests[..a + 1];
    }
  }

  /** The demonstration stream 30, 10, 20, 30, 40, 50. */
  lemma FindCurrentMaxScenario()
    ensures var s := [30.0, 10.0, 20.0, 30.0, 40.0, 50.0];
            forall i :: 0 <= i < |s| ==> RunningMax(s[..i + 1]) == [30.0, 30.0, 30.0, 30.0, 40.0, 50.0][i]
  {
    var s := [30.0, 10.0, 20.0, 30.0, 40.0, 50.0];
    assert s[..1][..0] == [];
    assert RunningMax(s[..1]) == 30.0;
    assert s[..2][..1] == s[..1];
    assert RunningMax(s[..2]) == 30.0;
    assert s[..3][..2] == s[..2];
    assert RunningMax(s[..3]) == 30.0;
    assert s[..4][..3] == s[..3];
    assert RunningMax(s[..4]) == 30.0;
    assert s[..5][..4] == s[..4];
    assert RunningMax(s[..5]) == 40.0;
    assert s[..6][..5] == s[..5];
    assert RunningMax(s[..6]) == 50.0;
  }
}
