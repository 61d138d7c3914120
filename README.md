# gRPC calculator and countdown services, modelled in Dafny

This project models the server side of a small gRPC demonstration. Its two services are small reducers and producers that run once per call over a message stream:

- **CalculatorService**
  - `SimpleCalculation`: a unary call that switches over four operations, with a guard on Divide.
  - `SquareRoot`: a unary call with a guard against a negative number.
  - `DecomposeIntoPrimes`: a server-streaming call. It divides by trial and writes one prime factor per hit.
  - `AverageCalculation`: a client-streaming call. It collects a sum and a count and replies with their quotient, or 0 when it read nothing.
  - `FindCurrentMax`: a bidirectional call. It writes the current maximum after every number it reads.
- **CountDownService**
  - `StartServerCountDown`: writes S, S-1, ..., 0.
  - `StartClientCountDown`: reads the client's countdown, keeps only the last number and picks its reply from that number.

Modelling choices:

- A stream is a `seq`. A request stream is a method parameter. A response stream is the method's result, and each `WriteAsync` appends one element to it.
- The call's cancellation token is a `seq<bool>` oracle (module `CallContext`). Element i is what `IsCancellationRequested` reads at loop iteration i. Iterations past its end read "not requested".
- A `double` becomes a `real`. A division by zero still produces IEEE results (+infinity, -infinity, NaN), so the unary calculator answers with the datatype `Double`.
- `double.MinValue` is written out exactly as -(2^1024 - 2^971).
- `Math.Sqrt` is a function parameter, because its value belongs to the runtime library.
- C# `int` fields and the `int` elements of the countdown and prime factor streams are the subset type `Wire.Int32`.
- A unary calculation request always carries its calculation sub-message; a request without one is listed under Left out.

Files:

- `Wire.dfy`: message field types.
- `CallContext.dfy`: the cancellation token and the count of messages a loop handles before it sees the token set.
- `CalculatorService.dfy`: the calculator service.
- `CountDownService.dfy`: the countdown service.

Every loop of the two services is a `method` with a `while` loop. Its `ensures` ties the output to a specification function: `EmittedWithin` and `PrimeFactors`, `Mean`, `RunningMax`, `Countdown` or `LastNumber`. The lemmas prove what the service promises about those functions.

## Model

| member | source | states |
|---|---|---|
| `CallContext.Consumed` | gRPC/Server/Services/CalculatorService.cs:100-109 | The number of inbound messages a loop handles when it checks the token before each one: none of the first k iterations reads the token set, and if k is short of the stream length, iteration k reads it set. |
| `CallContext.ConsumedIsFirstRequest` | gRPC/Server/Services/CalculatorService.cs:132-139 | That characterisation determines the count uniquely. The loops use it to tie the iteration where they stop to `Consumed`. |
| `CallContext.NeverRequestedConsumesAll` | gRPC/Server/Services/CalculatorService.cs:100-115 | A call whose token is never set handles every inbound message. |
| `CalculatorService.DoubleQuotient` | gRPC/Server/Services/CalculatorService.cs:36 | The C# double division: finite if and only if the divisor is non-zero, and then the quotient times the divisor is the dividend. Dividing by zero gives +infinity for a positive dividend, -infinity for a negative one and NaN for 0. |
| `CalculatorService.SimpleCalculation` | gRPC/Server/Services/CalculatorService.cs:13-40 | For a request that carries its calculation, the call fails with InvalidArgument and the text "Division by zero is not allowed." exactly when the operation is Divide and the second number is negative. Add, Subtract and Multiply reply with the sum, difference and product, and Divide by a positive number with the quotient. A zero divisor passes the guard, and only it yields a non-finite result, the IEEE quotient by zero. An unrecognized operation replies 0. |
| `CalculatorService.SubtractUndoesAdd` | gRPC/Server/Services/CalculatorService.cs:22-27 | Add replies with a finite number, and Subtract of the same second number gives back the first. |
| `CalculatorService.DivideUndoesMultiply` | gRPC/Server/Services/CalculatorService.cs:28-37 | For a positive second number, Divide undoes Multiply. |
| `CalculatorService.MultiplyScenario` | gRPC/Client/Client.cs:20 | The client's request 10 Multiply 20 gets the reply 200. |
| `CalculatorService.SquareRoot` | gRPC/Server/Services/CalculatorService.cs:43-53 | The call fails with InvalidArgument and the text "Cannot calculate square root of a negative number." exactly when the number is negative. Otherwise the reply is the library square root of the number. |
| `CalculatorService.SquareRootGuardIgnoresSqrt` | gRPC/Server/Services/CalculatorService.cs:45-50 | A negative number never reaches the library square root: the reply is the same whatever that function is. |
| `CalculatorService.DivideGuardAsWritten` | gRPC/Server/Services/CalculatorService.cs:33-36 | The guard as written lets 10 / 0 through with the reply +infinity, and 0 / 0 with the reply NaN. It rejects the well-defined 10 / -2. |
| `CalculatorService.SimpleCalculationIntended` | gRPC/Server/Services/CalculatorService.cs:31-37 | With the guard the error text describes (reject a zero divisor), the call fails exactly for Divide by 0. Every reply is finite, and a Divide reply times the divisor gives back the first number. Other operations behave as in `SimpleCalculation`. |
| `CalculatorService.HitStep` | gRPC/Server/Services/CalculatorService.cs:75-79 | Loop state: no candidate below the divisor divides the quotient. On a hit, the quotient shrinks strictly, stays at least 1, is the old quotient divided by the divisor, and keeps that property. |
| `CalculatorService.MissStep` | gRPC/Server/Services/CalculatorService.cs:81-84 | On a miss, the divisor is strictly below the quotient, so it can grow by one and keep the loop state, and the divisor never passes the quotient. |
| `CalculatorService.QuotientBounds` | gRPC/Server/Services/CalculatorService.cs:75-77 | On a hit of a divisor of at least 2, the new quotient is at least 1 and strictly below the old one. |
| `CalculatorService.PrimeFactorsProduct` | gRPC/Server/Services/CalculatorService.cs:61-85 | The product of the factors that trial division writes from a valid state equals the quotient. |
| `CalculatorService.PrimeFactorsArePrime` | gRPC/Server/Services/CalculatorService.cs:75-79 | Every factor written is prime. |
| `CalculatorService.PrimeFactorsAscending` | gRPC/Server/Services/CalculatorService.cs:75-84 | The factors come in non-decreasing order, none smaller than the current divisor. A factor can repeat, because a hit does not advance the divisor. |
| `CalculatorService.PrimeFactorsOfIsFactorization` | gRPC/Server/Services/CalculatorService.cs:61-85 | With no cancellation, a request N of at most 1 (including 0 and negative numbers) writes nothing. For N of at least 1 the product of the factors is N, every factor is prime, and the order is non-decreasing. |
| `CalculatorService.EmittedWithinPrefix` | gRPC/Server/Services/CalculatorService.cs:66-85 | Stopping the loop after k iterations leaves a prefix of the full factorization on the stream. The prefix is the whole factorization if and only if k is at least the number of iterations the uncancelled loop runs. |
| `CalculatorService.IterationStep` | gRPC/Server/Services/CalculatorService.cs:75-84 | One iteration from a quotient above 1 keeps the divisor at most the quotient. A hit divides the quotient and writes the divisor; a miss advances the divisor. Either way it uses up exactly one of the remaining iterations. |
| `CalculatorService.EmittedBeforeCancellation` | gRPC/Server/Services/CalculatorService.cs:66-73 | The stream left when the loop stops at the first iteration that sees the token set is a prefix of the factorization. It is all of it if and only if no iteration of the uncancelled run sees the token set. It is empty when N is at most 1 or the first check sees the token set. |
| `CalculatorService.DecomposeIntoPrimes` | gRPC/Server/Services/CalculatorService.cs:56-88 | The response stream is exactly the factors written by the iterations run before the first iteration that sees the token set. So it is a prefix of the uncancelled factorization. It is all of it if and only if none of the iterations the uncancelled loop runs sees the token set, so it is all of it when the token is never set. It is empty when N is at most 1 or the token is set at the first check. The loop terminates. |
| `CalculatorService.QuotientBetween` | gRPC/Server/Services/CalculatorService.cs:119 | A total between n·lo and n·hi, divided by a positive count n, lies between lo and hi. |
| `CalculatorService.MeanBounds` | gRPC/Server/Services/CalculatorService.cs:113-119 | The mean of a non-empty stream lies between any lower and any upper bound of its numbers. |
| `CalculatorService.MeanOfConstant` | gRPC/Server/Services/CalculatorService.cs:113-119 | A stream that repeats one number c averages to c. An empty stream averages to 0. |
| `CalculatorService.AverageScenario` | gRPC/Client/Client.cs:24 | The client's stream 10, 20, 30, 40, 50 averages to 30. |
| `CalculatorService.AverageCalculation` | gRPC/Server/Services/CalculatorService.cs:91-121 | The reply is the mean (sum divided by count) of the numbers read before the token was seen set, and 0 when none was read. It is the mean of the whole stream when the token is never set. |
| `CalculatorService.RunningMaxIsMaximum` | gRPC/Server/Services/CalculatorService.cs:128-141 | The running maximum is at least `double.MinValue` and at least every number read. It is either `double.MinValue` or one of the numbers. |
| `CalculatorService.RunningMaxMonotone` | gRPC/Server/Services/CalculatorService.cs:141 | Reading more numbers never lowers the running maximum. |
| `CalculatorService.FindCurrentMax` | gRPC/Server/Services/CalculatorService.cs:123-148 | Exactly one response per number read before the token is seen set. Response i is the maximum of `double.MinValue` and the first i+1 numbers. Each response is at least its own request, and the responses are non-decreasing. |
| `CalculatorService.FindCurrentMaxScenario` | gRPC/Client/Client.cs:25 | The client's stream 30, 10, 20, 30, 40, 50 gets the responses 30, 30, 30, 30, 40, 50. |
| `CountDownService.CountdownShape` | gRPC/Server/Services/CountDownService.cs:13-20 | A countdown from S of at least 0 has S+1 messages, and message i is S-i. A countdown from S below 0 is empty. |
| `CountDownService.CountdownStepsAndEnd` | gRPC/Server/Services/CountDownService.cs:17-19 | Consecutive countdown messages differ by exactly 1, and a non-empty countdown ends at 0. |
| `CountDownService.StartServerCountDown` | gRPC/Server/Services/CountDownService.cs:9-21 | The response stream is the countdown from the requested number. |
| `CountDownService.FinalMessage` | gRPC/Server/Services/CountDownService.cs:37-39 | The reply is "Countdown finished!" if and only if the last number is 0. Otherwise it is "Countdown ended prematurely.". |
| `CountDownService.StartClientCountDown` | gRPC/Server/Services/CountDownService.cs:23-45 | The reply is "Countdown finished!" if and only if the stream is non-empty and its last number is 0. An empty stream leaves `lastNumber` at -1 and gets "Countdown ended prematurely.". |
| `CountDownService.ReplyDependsOnlyOnLast` | gRPC/Server/Services/CountDownService.cs:30-35 | Numbers before the last one do not change the reply. For example, [5, 0] and [0] both get "Countdown finished!". |
| `CountDownService.ClientCountdownOutcome` | gRPC/Client/Client.cs:239-249 | The client's sender loop emits the countdown shape. Counting down from S of at least 0 gets "Countdown finished!", and starting below 0 sends nothing and gets "Countdown ended prematurely.". |

## Left out

- Network I/O, the async reader and writer, and `Task.Delay` pacing are not modelled. A stream is a `seq`, and a write is an append.
- Console logging is not modelled.
- `CalculatorService.AverageCalculation`: does not model the 32-bit width of `count` (gRPC/Server/Services/CalculatorService.cs:96, 114). In the source, `count` wraps to int.MinValue after 2^31-1 messages, and line 119 then divides by a negative count. The model's count is unbounded, so its reply is the true mean for a stream of any length.
- The client's streaming loops (the countdown sender and the response readers in gRPC/Client/Client.cs) are not modelled as loops. `CountDownService.ClientCountdownOutcome` takes the sender's output to be `Countdown(seconds)`.
- A unary calculation request whose calculation sub-message is unset is not modelled. The handler dereferences it (gRPC/Server/Services/CalculatorService.cs:16), so it throws a null reference exception, and the call fails with a status other than InvalidArgument. The model's request always carries a calculation.
- Concurrency between the two directions of the bidirectional call is not modelled. So is the client's concurrent reader task.
- The transport's own cancellation is not modelled. `ReadAllAsync(token)` can throw when the token is set, and the call then ends with no reply. The model keeps only the service's own per-iteration check, which breaks out of the loop.
- Floating point is not modelled: no rounding, overflow to infinity, signed zero, or NaN or infinity as inputs. Numbers are `real`, except that a division by zero produces the IEEE results described above.
- The numeric value of `Math.Sqrt` is not modelled. It is a parameter of `SquareRoot`.
- The health check service returns a constant status. The greeting service is one string interpolation. Neither is modelled.
- Client orchestration, connection set-up, the health probe, TLS and hosting (`gRPC/Client/Program.cs`, `gRPC/Server/Program.cs`, most of `gRPC/Client/Client.cs`) are plumbing. They are not part of this model.
- `CalculatorService.PrimeFactorsOfIsFactorization`: it does not prove that the factorization is unique. Uniqueness is not a property the service relies on.

## Findings

| source | as written | input that shows it | evidently intended | confidence | as-written member | corrected member |
|---|---|---|---|---|---|---|
| gRPC/Server/Services/CalculatorService.cs:33-34 | The Divide guard rejects `SecondNumber < 0` with the text "Division by zero is not allowed." | 10 Divide 0 passes the guard and replies +infinity. 10 Divide -2 is rejected although it is well defined. | Reject a zero divisor (`SecondNumber == 0`) and divide any other. | high (not executed) | `CalculatorService.DivideGuardAsWritten` | `CalculatorService.SimpleCalculationIntended` |
