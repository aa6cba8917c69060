# gRPC course servers: a verified model of the handlers

This project models the request handlers of two example gRPC services written
in Go, and proves what they compute.

- The **calculator service** has five parts:
  - `Calculate` adds two int32 numbers.
  - `Decompose` is a server-streaming prime factorisation by trial division.
  - `FindMaximum` is a bidirectional running maximum.
  - `SquareRoot` validates its argument.
  - `max2` is a helper that returns the largest element of a slice.
- The **greet service** has five handlers:
  - `Greet` is unary.
  - `GreetManyTimes` is server-streaming and sends ten numbered greetings.
  - `LongGreet` is client-streaming and folds all requests into one string.
  - `GreetEveryone` is bidirectional and sends one reply per request.
  - `GreetWithDeadline` is unary and checks for cancellation three times.

Files:

- `rpc.dfy` (module `Rpc`): a possibly-unset message field (`Option`), status
  codes and status errors, a unary outcome (`Result`: a response or a status error
  with no response), and the three values of `ctx.Err()`.
- `int32.dfy` (module `Int32`): Go's `int32` as a subset type, and two's
  complement wrap-around (`Wrap`).
- `decimal.dfy` (module `Decimal`): `strconv.Itoa` for non-negative numbers, and
  its inverse.
- `calculator_server.dfy` (module `CalculatorServer`) and `greet_server.dfy`
  (module `GreetServer`): the handlers.

How streams are modelled:

- A request stream is the finite sequence of messages the client sends before it
  half-closes.
- A handler reads that sequence front to back with an index.
- The index reaching the end plays the part of `Recv` returning `io.EOF`.
- A response stream is a sequence `sent`, and each `Send` appends to it.
  `SendAndClose` is the single value a client-streaming handler returns.
- Each handler that loops in Go is a `method` with the same loop (`while true`
  with `break`, `continue` and `return` where Go has them). Each such method is
  proved against a specification function of its input.
- Protobuf getters are nil-safe. An unset `Greeting` or `Numbers` field is
  `None`, and its getters give `""` or `0`.

The running maximum follows the code:

- One might expect the maximum to start unset, and the final value to be sent
  at end of input only if it has not been sent already. The code does neither.
- In the code, `max` starts at 0, which is Go's zero value. A first number equal
  to 0 therefore causes no update.
- At end of input the code sends `max` unconditionally. For the client's numbers
  the stream therefore ends 900, 900.
- `UpdatesIncreaseToRunning` proves that the final send always repeats the last
  in-loop update, or is 0 when there was none.

## Model

| member | source | states |
|---|---|---|
| `Int32.Wrap` | calculator/calculator_server/server.go:23 | int32 arithmetic result: the unique value of [-2^31, 2^31) congruent to the true result modulo 2^32; equal to it when it fits |
| `CalculatorServer.Calculate` | calculator/calculator_server/server.go:20-28 | the response is the true sum of the two numbers (0 for an unset `Numbers`) when it fits in int32, and otherwise the sum shifted by exactly 2^32 and congruent to it modulo 2^32 |
| `CalculatorServer.CalculateClientExample` | calculator/calculator_client/client.go:34-40 | the client's call 3 + 12 yields 15 |
| `CalculatorServer.CalculateOverflowWraps` | calculator/calculator_server/server.go:23 | 2147483647 + 1 wraps to -2147483648 |
| `CalculatorServer.Decompose` | calculator/calculator_server/server.go:30-46 | the factors sent are exactly the trial-division factorisation; none for an input <= 1; for an input > 1 their product is the input; each is a prime >= 2; they are non-decreasing; `k + 1` never overflows int32 |
| `CalculatorServer.SmallestDivisorIsPrime` | calculator/calculator_server/server.go:34-38 | a divisor `k` of `n` with no divisor of `n` in [2, k) is prime, so every factor sent is prime |
| `CalculatorServer.NoDivisorBelowQuotient` | calculator/calculator_server/server.go:35-39 | after `n = n / k` the quotient is smaller, and still has no divisor in [2, k) |
| `CalculatorServer.NoDivisorBelowNext` | calculator/calculator_server/server.go:40-41 | when `k` does not divide `n`, incrementing `k` keeps the invariant "no divisor of n in [2, k)" and `k` stays below `n` |
| `CalculatorServer.FactorsFromProduct` | calculator/calculator_server/server.go:34-44 | from any loop state with the invariant and a remaining `n >= 1`, the product of the factors still to be sent equals `n` |
| `CalculatorServer.FactorsFromPrimeAndOrdered` | calculator/calculator_server/server.go:31-43 | from any loop state with the invariant, every factor still to be sent is a prime >= `k`, and they are non-decreasing |
| `CalculatorServer.FactorsAreFactorisation` | calculator/calculator_server/server.go:30-46 | the factorisation of n > 1 is a non-decreasing sequence of primes whose product is n; for n <= 1 it is empty |
| `CalculatorServer.DecomposeClientExample` | calculator/calculator_client/client.go:50-52 | 210 decomposes into 2, 3, 5, 7 |
| `CalculatorServer.SeqMaxIsMaximum` | calculator/calculator_server/server.go:113-121 | the reference maximum of a non-empty sequence is an element of it, and no element exceeds it |
| `CalculatorServer.Max2` | calculator/calculator_server/server.go:113-121 | requires a non-empty slice; the result is in the slice, is >= every element, and equals the reference maximum |
| `CalculatorServer.UpdatesStep` | calculator/calculator_server/server.go:84-92 | after one more number, `max` is the larger of the old `max` and the number (the number itself if it is the first), and one message is sent iff `max` changed |
| `CalculatorServer.UpdatesIncreaseToRunning` | calculator/calculator_server/server.go:69-92 | the in-loop sends are strictly increasing; the last one equals the current `max`; with none sent, `max` is still 0 |
| `CalculatorServer.UpdatesAreChanges` | calculator/calculator_server/server.go:84-92 | a value is sent in the loop iff, at some request, the maximum so far changed and that value is the new maximum |
| `CalculatorServer.MaximumStreamEndsWithMaximum` | calculator/calculator_server/server.go:74-78 | the end-of-input send always occurs: 0 for an empty stream, otherwise a received number that no received number exceeds |
| `CalculatorServer.FindMaximumClientExample` | calculator/calculator_client/client.go:108 | 3,5,5,4,6,3,9,10,200,900,100 yields 3,5,6,9,10,200,900,900 |
| `CalculatorServer.FindMaximum` | calculator/calculator_server/server.go:67-99 | the sent sequence is the in-loop updates followed by `max` once at end of input; that last value is 0 for an empty stream, else the true maximum of the stream |
| `CalculatorServer.SquareRoot` | calculator/calculator_server/server.go:101-106 | it fails iff the number is negative, with `InvalidArgument`, the source's message and no response; a non-negative number is accepted unchanged |
| `CalculatorServer.SquareRootClientExample` | calculator/calculator_client/client.go:145-156 | -3 is rejected with `InvalidArgument` |
| `Decimal.Itoa` | greet/greet_server/server.go:36 | `strconv.Itoa` of a non-negative number: at least one digit, all digits, a single digit iff the number is below 10, and no leading zero |
| `Decimal.AtoiItoa` | greet/greet_server/server.go:36 | reading the decimal text back gives the number |
| `Decimal.ItoaInjective` | greet/greet_server/server.go:36 | distinct numbers are written as distinct strings |
| `GreetServer.Greet` | greet/greet_server/server.go:22-30 | the result is "Hello " followed by exactly the first name ("" when the greeting is unset) |
| `GreetServer.NumberedGreetingReadsBack` | greet/greet_server/server.go:36 | message i is "Hello <name> number " followed by digits that read back as i |
| `GreetServer.NumberedGreetingsDistinct` | greet/greet_server/server.go:35-43 | messages of different rounds differ |
| `GreetServer.GreetManyTimes` | greet/greet_server/server.go:32-46 | exactly 10 messages; message i, for i = 0..9 in order, is the greeting numbered i; no two alike |
| `GreetServer.LinesAppend` | greet/greet_server/server.go:50-62 | the lines of two consecutive batches of requests are the lines of the first followed by those of the second |
| `GreetServer.AccumulatedIsLines` | greet/greet_server/server.go:49-61 | the accumulated string is " " followed by "Hello <firstName> \n" for each request in arrival order, so an empty stream gives " " |
| `GreetServer.AccumulatedExtends` | greet/greet_server/server.go:50-62 | receiving further requests only appends their lines to what was accumulated |
| `GreetServer.LongGreet` | greet/greet_server/server.go:48-63 | the single response, sent once the stream has ended, is the accumulated string: " " followed by every request's line in order |
| `GreetServer.GreetEveryone` | greet/greet_server/server.go:65-88 | one response per request, in the same order, each "Hello <firstName>! ", and nothing more at end of input |
| `GreetServer.GreetWithDeadline` | greet/greet_server/server.go:90-105 | fails with `Canceled`, the source's message and no response iff one of the 3 checks sees `context.Canceled` (a passed deadline does not count); otherwise the response is the greeting |

## Left out

- `ComputeAverage` (calculator/calculator_server/server.go:48-65) computes `sum / n` in float64, which is NaN on an empty stream. Floating point is not modelled.
- `SquareRoot`: the value it returns is `math.Sqrt` in floating point. Only the validation branch is modelled, and an accepted number stands for the computed root.
- Transport errors are not modelled, and every request stream is a finite sequence ending in `io.EOF`. The model does not capture their handling in the source:
  - A `Recv` error other than `io.EOF` ends the process through `log.Fatalf`.
  - A failed in-loop `Send` in `FindMaximum` and `GreetEveryone` also ends the process through `log.Fatalf`.
  - `Decompose` and `GreetManyTimes` ignore the error `Send` returns, and so does the end-of-input `Send` of `FindMaximum`, which then returns `nil`.
  - `LongGreet` returns the error of `SendAndClose` to the gRPC runtime as its own result.
- `time.Sleep`, `fmt.Printf`, `fmt.Println` and `log.Printf` have no effect on what is sent. They are left out.
- `GreetWithDeadline`: the one-second waits between checks are left out. The context is given as the value `ctx.Err()` returns at each check.
- The response wrappers (`DecomposeResponse`, `FindMaximumResponse`, and so on) are modelled by the one field they carry.
- `Decimal.Itoa` covers non-negative numbers only, because `GreetManyTimes` formats only 0 to 9. Go's `-` sign branch is not modelled.
- The `main` functions (listener setup, TLS credentials, reflection, `Serve`) are runtime plumbing.
- The client programs are not modelled, except that their example inputs appear as lemmas. Their concurrency (two goroutines and the `waitc` channel) is not modelled either.
- The blog service has no handler logic.
- gRPC framing, the internals of `SendAndClose` and status construction are foreign library code. A status is modelled as a code and a message.
