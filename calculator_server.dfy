/** The handlers of the calculator service: `Calculate` (unary int32 sum),
    `Decompose` (server-streaming prime factorisation by trial division),
    `FindMaximum` (bidirectional running maximum), `SquareRoot` (its
    validation of the argument) and the helper `max2`.

    A request stream is the finite sequence of the messages the client sends
    before it half-closes; a handler reads it front to back, and reading past
    its end is `Recv` returning `io.EOF`. A response stream is the sequence
    `sent`, to which every `Send` appends one message. */
module CalculatorServer {
  import opened Rpc
  import opened Int32

  /** `Numbers{NumberOne, NumberTwo}`. */
  datatype Numbers = Numbers(numberOne: Int32, numberTwo: Int32)

  /** `CalculatorRequest{Numbers}`; the `Numbers` field may be unset. */
  datatype CalculatorRequest = CalculatorRequest(numbers: Option<Numbers>)

  /** `req.GetNumbers().GetNumberOne()`: 0 when `Numbers` is unset. */
  function NumberOne(req: CalculatorRequest): Int32 {
    match req.numbers
    case None => 0
    case Some(n) => n.numberOne
  }

  /** `req.GetNumbers().GetNumberTwo()`: 0 when `Numbers` is unset. */
  function NumberTwo(req: CalculatorRequest): Int32 {
    match req.numbers
    case None => 0
    case Some(n) => n.numberTwo
  }

  // ---------------------------------------------------------------- Calculate

  /** The `Result` field of the response: the int32 sum of the two numbers,
      which is the true sum unless that overflows, and always agrees with the
      true sum modulo 2^32. */
  function Calculate(req: CalculatorRequest): (sum: Int32)
    ensures InRange(NumberOne(req) + NumberTwo(req)) ==> sum == NumberOne(req) + NumberTwo(req)
    ensures !InRange(NumberOne(req) + NumberTwo(req)) ==>
              sum == NumberOne(req) + NumberTwo(req) - Modulus || sum == NumberOne(req) + NumberTwo(req) + Modulus
    ensures (sum - (NumberOne(req) + NumberTwo(req))) % Modulus == 0
  {
    Wrap(NumberOne(req) + NumberTwo(req))
  }

  /** The client's unary call: 3 + 12. */
  lemma CalculateClientExample()
    ensures Calculate(CalculatorRequest(Some(Numbers(3, 12)))) == 15
  {
  }

  /** int32 addition wraps: MaxInt32 + 1 is MinInt32. */
  lemma CalculateOverflowWraps()
    ensures Calculate(CalculatorRequest(Some(Numbers(0x7fff_ffff, 1)))) == -0x8000_0000
  {
  }

  // ---------------------------------------------------------------- Decompose

  /** `DecomposeRequest{PrimeNumber}`. */
  datatype DecomposeRequest = DecomposeRequest(primeNumber: Int32)

  /** No integer in [2, k) divides n. */
  ghost predicate NoDivisorBelow(n: int, k: int) {
    forall d :: 2 <= d < k ==> n % d != 0
  }

  ghost predicate IsPrime(p: int) {
    p >= 2 && NoDivisorBelow(p, p)
  }

  function Product(s: seq<int>): int {
    if s == [] then 1 else s[0] * Product(s[1..])
  }

  lemma MulAtLeast(d: int, c: int)
    requires d > 0 && c >= 1
    ensures d * c >= d
  {
  }

  lemma ModOfMultiple(d: int, c: int)
    requires d > 0
    ensures (d * c) % d == 0
  {
    var x := d * c;
    var q := x / d;
    var r := x % d;
    assert x == d * q + r;
    assert d * (c - q) == r;
    if c - q >= 1 {
      MulAtLeast(d, c - q);
    } else if c - q <= -1 {
      MulAtLeast(d, q - c);
    }
  }

  /** If d divides k and k divides n, then d divides n. */
  lemma DividesTransitive(d: int, k: int, n: int)
    requires d > 0 && k > 0
    requires k % d == 0 && n % k == 0
    ensures n % d == 0
  {
    var a := n / k;
    var b := k / d;
    assert n == k * a;
    assert k == d * b;
    assert n == d * (b * a);
    ModOfMultiple(d, b * a);
  }

  /** Dividing out a factor k >= 2 leaves a smaller positive quotient. */
  lemma QuotientSmaller(n: int, k: int)
    requires n > 1 && k >= 2 && n % k == 0
    ensures 1 <= n / k < n
  {
  }

  /** The quotient is itself a divisor of n. */
  lemma QuotientDivides(n: int, k: int)
    requires n > 1 && k >= 2 && n % k == 0
    ensures 1 <= n / k < n && n % (n / k) == 0
  {
    QuotientSmaller(n, k);
    var q := n / k;
    assert n == q * k;
    ModOfMultiple(q, k);
  }

  /** Dividing n by its divisor k keeps every divisor of the quotient a
      divisor of n, so no divisor below k appears. */
  lemma NoDivisorBelowQuotient(n: int, k: int)
    requires n > 1 && k >= 2 && n % k == 0
    requires NoDivisorBelow(n, k)
    ensures 1 <= n / k < n
    ensures NoDivisorBelow(n / k, k)
  {
    QuotientDivides(n, k);
    var q := n / k;
    forall d | 2 <= d < k ensures q % d != 0 {
      if q % d == 0 {
        DividesTransitive(d, q, n);
      }
    }
  }

  /** A divisor k of n with no divisor of n below it is prime. */
  lemma SmallestDivisorIsPrime(n: int, k: int)
    requires n > 1 && k >= 2 && n % k == 0
    requires NoDivisorBelow(n, k)
    ensures IsPrime(k)
  {
    forall d | 2 <= d < k ensures k % d != 0 {
      if k % d == 0 {
        DividesTransitive(d, k, n);
      }
    }
  }

  /** When k does not divide n > 1 and nothing below k does, k + 1 still
      does not pass n: n itself is a divisor of n. */
  lemma NoDivisorBelowNext(n: int, k: int)
    requires n > 1 && k >= 2 && n % k != 0
    requires NoDivisorBelow(n, k)
    ensures NoDivisorBelow(n, k + 1)
    ensures k < n
  {
    assert n % n == 0;
  }

  /** The factors the trial-division loop emits from the state (n, k) on:
      while n > 1, emit k and divide when k divides n, else try k + 1.
      The precondition is the loop's own invariant, and what keeps k <= n. */
  ghost function FactorsFrom(n: int, k: int): seq<int>
    requires 2 <= k
    requires n > 1 ==> NoDivisorBelow(n, k)
    decreases n, n - k
  {
    if n <= 1 then []
    else if n % k == 0 then
      NoDivisorBelowQuotient(n, k);
      [k] + FactorsFrom(n / k, k)
    else
      NoDivisorBelowNext(n, k);
      FactorsFrom(n, k + 1)
  }

  /** The factors `Decompose` emits for the number n. */
  ghost function Factors(n: int): seq<int> {
    FactorsFrom(n, 2)
  }

  lemma {:induction false} FactorsFromProduct(n: int, k: int)
    requires 2 <= k
    requires n > 1 ==> NoDivisorBelow(n, k)
    ensures n >= 1 ==> Product(FactorsFrom(n, k)) == n
    decreases n, n - k
  {
    if n > 1 {
      if n % k == 0 {
        NoDivisorBelowQuotient(n, k);
        FactorsFromProduct(n / k, k);
        var s := FactorsFrom(n, k);
        assert s[0] == k && s[1..] == FactorsFrom(n / k, k);
      } else {
        NoDivisorBelowNext(n, k);
        FactorsFromProduct(n, k + 1);
      }
    }
  }

  lemma {:induction false} FactorsFromPrimeAndOrdered(n: int, k: int)
    requires 2 <= k
    requires n > 1 ==> NoDivisorBelow(n, k)
    ensures forall i :: 0 <= i < |FactorsFrom(n, k)| ==> k <= FactorsFrom(n, k)[i] && IsPrime(FactorsFrom(n, k)[i])
    ensures forall i, j :: 0 <= i <= j < |FactorsFrom(n, k)| ==> FactorsFrom(n, k)[i] <= FactorsFrom(n, k)[j]
    decreases n, n - k
  {
    if n > 1 {
      if n % k == 0 {
        SmallestDivisorIsPrime(n, k);
        NoDivisorBelowQuotient(n, k);
        FactorsFromPrimeAndOrdered(n / k, k);
      } else {
        NoDivisorBelowNext(n, k);
        FactorsFromPrimeAndOrdered(n, k + 1);
      }
    }
  }

  /** The factorisation of a number greater than 1 is a non-decreasing
      sequence of primes whose product is that number; a number of at most 1
      has no factors. */
  lemma FactorsAreFactorisation(n: int)
    ensures n <= 1 ==> Factors(n) == []
    ensures n > 1 ==> Product(Factors(n)) == n
    ensures forall i :: 0 <= i < |Factors(n)| ==> 2 <= Factors(n)[i] && IsPrime(Factors(n)[i])
    ensures forall i, j :: 0 <= i <= j < |Factors(n)| ==> Factors(n)[i] <= Factors(n)[j]
  {
    FactorsFromProduct(n, 2);
    FactorsFromPrimeAndOrdered(n, 2);
  }

  /** The client's server-streaming call: 210 decomposes into 2, 3, 5, 7. */
  lemma DecomposeClientExample()
    ensures Factors(210) == [2, 3, 5, 7]
  {
  }

  /** The server-streaming handler. `sent` holds the `Result` of each
      `DecomposeResponse` sent, in order. */
  method Decompose(req: DecomposeRequest) returns (sent: seq<Int32>)
    ensures sent == Factors(req.primeNumber)
    ensures req.primeNumber <= 1 ==> sent == []
    ensures req.primeNumber > 1 ==> Product(sent) == req.primeNumber
    ensures forall i :: 0 <= i < |sent| ==> 2 <= sent[i] && IsPrime(sent[i])
    ensures forall i, j :: 0 <= i <= j < |sent| ==> sent[i] <= sent[j]
  {
    var k: Int32 := 2;
    var n: Int32 := req.primeNumber;
    sent := [];
    while n > 1
      invariant 2 <= k
      invariant n > 1 ==> NoDivisorBelow(n, k)
      invariant sent + FactorsFrom(n, k) == Factors(req.primeNumber)
      decreases n, n - k
    {
      if n % k == 0 {
        NoDivisorBelowQuotient(n, k);
        sent := sent + [k];
        n := n / k;
      } else {
        NoDivisorBelowNext(n, k);
        k := k + 1;
      }
    }
    FactorsAreFactorisation(req.primeNumber);
  }

  // ---------------------------------------------------------------- max2

  /** The largest element of a non-empty sequence, as a reference for `max2`. */
  function SeqMax(s: seq<int>): int
    requires |s| > 0
  {
    if |s| == 1 then s[0]
    else
      var m := SeqMax(s[..|s| - 1]);
      if m < s[|s| - 1] then s[|s| - 1] else m
  }

  /** The reference maximum is an element, and no element exceeds it. */
  lemma {:induction false} SeqMaxIsMaximum(s: seq<int>)
    requires |s| > 0
    ensures SeqMax(s) in s
    ensures forall i :: 0 <= i < |s| ==> s[i] <= SeqMax(s)
  {
    if |s| > 1 {
      var p := s[..|s| - 1];
      SeqMaxIsMaximum(p);
      assert forall i :: 0 <= i < |p| ==> s[i] == p[i];
    }
  }

  /** `max2(array)`: the caller must pass a non-empty slice (`arr`, since
      `array` is a reserved word here), since it reads its first element; the
      result is an element and no element exceeds it. */
  method Max2(arr: seq<Int32>) returns (max: Int32)
    requires |arr| > 0
    ensures max in arr
    ensures forall i :: 0 <= i < |arr| ==> arr[i] <= max
    ensures max == SeqMax(arr)
  {
    max := arr[0];
    for i := 0 to |arr|
      invariant max in arr
      invariant forall j :: 0 <= j < i ==> arr[j] <= max
    {
      var value := arr[i];
      if max < value {
        max := value;
      }
    }
    SeqMaxIsMaximum(arr);
  }

  // ---------------------------------------------------------------- FindMaximum

  /** The value of `max` after the numbers `s` have been received: Go's zero
      value before the first number, the maximum so far after it. */
  ghost function Running(s: seq<int>): int {
    if s == [] then 0 else SeqMax(s)
  }

  /** The messages sent inside the loop while the numbers `s` are received:
      after each number, the new maximum if it differs from the previous
      `max`, and nothing otherwise. */
  ghost function Updates(s: seq<int>): seq<int>
    decreases |s|
  {
    if s == [] then []
    else
      var p := s[..|s| - 1];
      Updates(p) + (if SeqMax(s) == Running(p) then [] else [SeqMax(s)])
  }

  /** Everything `FindMaximum` sends for the request stream `s`: the in-loop
      updates, then `max` once more at end of input. */
  ghost function MaximumStream(s: seq<int>): seq<int> {
    Updates(s) + [Running(s)]
  }

  /** One more number received: `max` becomes the larger of the two (the
      number itself when it is the first), and it is sent iff it changed. */
  lemma UpdatesStep(p: seq<int>, x: int)
    ensures Running(p + [x]) == (if p == [] || Running(p) < x then x else Running(p))
    ensures Updates(p + [x]) == Updates(p) + (if Running(p + [x]) == Running(p) then [] else [Running(p + [x])])
  {
  }

  /** The maximum of a longer prefix is never smaller. */
  lemma RunningGrows(s: seq<int>)
    requires |s| > 1
    ensures SeqMax(s[..|s| - 1]) <= SeqMax(s)
  {
  }

  /** The in-loop updates are strictly increasing, the last of them is the
      current maximum, and with no update at all `max` is still 0. */
  lemma {:induction false} UpdatesIncreaseToRunning(s: seq<int>)
    ensures forall i, j :: 0 <= i < j < |Updates(s)| ==> Updates(s)[i] < Updates(s)[j]
    ensures Updates(s) == [] ==> Running(s) == 0
    ensures Updates(s) != [] ==> Updates(s)[|Updates(s)| - 1] == Running(s)
    decreases |s|
  {
    if s != [] {
      var p := s[..|s| - 1];
      UpdatesIncreaseToRunning(p);
      if p != [] {
        RunningGrows(s);
      }
    }
  }

  /** The number received at step j (0-based) changes `max`. */
  ghost predicate ChangesAt(s: seq<int>, j: int)
    requires 0 <= j < |s|
  {
    Running(s[..j + 1]) != Running(s[..j])
  }

  /** A value is sent inside the loop exactly when it is the new maximum at
      a step where the maximum changed. */
  lemma {:induction false} UpdatesAreChanges(s: seq<int>, v: int)
    ensures v in Updates(s) <==> exists j :: 0 <= j < |s| && ChangesAt(s, j) && v == Running(s[..j + 1])
    decreases |s|
  {
    if s != [] {
      var p := s[..|s| - 1];
      var n := |s| - 1;
      UpdatesAreChanges(p, v);
      assert s[..n] == p && s[..n + 1] == s;
      forall j | 0 <= j < n
        ensures ChangesAt(s, j) == ChangesAt(p, j) && Running(s[..j + 1]) == Running(p[..j + 1])
      {
        assert s[..j + 1] == p[..j + 1] && s[..j] == p[..j];
      }
      if v in Updates(s) {
        if v in Updates(p) {
          var j :| 0 <= j < |p| && ChangesAt(p, j) && v == Running(p[..j + 1]);
          assert ChangesAt(s, j);
        } else {
          assert ChangesAt(s, n);
        }
      } else {
        forall j | 0 <= j < |s| && ChangesAt(s, j)
          ensures v != Running(s[..j + 1])
        {
          if j < n {
            assert ChangesAt(p, j);
          }
        }
      }
    }
  }

  /** At end of input `max` is sent once more: 0 for an empty stream,
      otherwise a number of the stream that no number exceeds. */
  lemma MaximumStreamEndsWithMaximum(s: seq<int>)
    ensures |MaximumStream(s)| >= 1
    ensures s == [] ==> MaximumStream(s) == [0]
    ensures s != [] ==> MaximumStream(s)[|MaximumStream(s)| - 1] in s
    ensures forall i :: 0 <= i < |s| ==> s[i] <= MaximumStream(s)[|MaximumStream(s)| - 1]
  {
    if s != [] {
      SeqMaxIsMaximum(s);
    }
  }

  /** The client's bidirectional call: the numbers
      3, 5, 5, 4, 6, 3, 9, 10, 200, 900, 100 yield 3, 5, 6, 9, 10, 200, 900
      and then 900 again at end of input. */
  lemma FindMaximumClientExample(s: seq<int>)
    requires s == [3, 5, 5, 4, 6, 3, 9, 10, 200, 900, 100]
    ensures MaximumStream(s) == [3, 5, 6, 9, 10, 200, 900, 900]
  {
    var s0 := s[..0];
    UpdatesStep(s0, 3);
    var s1 := s0 + [3];
    UpdatesStep(s1, 5);
    var s2 := s1 + [5];
    UpdatesStep(s2, 5);
    var s3 := s2 + [5];
    UpdatesStep(s3, 4);
    var s4 := s3 + [4];
    UpdatesStep(s4, 6);
    var s5 := s4 + [6];
    UpdatesStep(s5, 3);
    var s6 := s5 + [3];
    UpdatesStep(s6, 9);
    var s7 := s6 + [9];
    UpdatesStep(s7, 10);
    var s8 := s7 + [10];
    UpdatesStep(s8, 200);
    var s9 := s8 + [200];
    UpdatesStep(s9, 900);
    var s10 := s9 + [900];
    UpdatesStep(s10, 100);
    var s11 := s10 + [100];
    assert s11 == s;
  }

  /** The bidirectional handler. `requests` holds the `Number` of each
      `FindMaximumRequest` in arrival order; `sent` the `Maximum` of each
      `FindMaximumResponse` sent. */
  method FindMaximum(requests: seq<Int32>) returns (sent: seq<Int32>)
    ensures sent == MaximumStream(requests)
    ensures requests == [] ==> sent == [0]
    ensures requests != [] ==> sent[|sent| - 1] in requests
    ensures forall i :: 0 <= i < |requests| ==> requests[i] <= sent[|sent| - 1]
  {
    var number: seq<Int32> := [];
    var max: Int32 := 0;
    var i := 0;
    sent := [];
    while true
      invariant 0 <= i <= |requests|
      invariant number == requests[..i]
      invariant max == Running(number)
      invariant sent == Updates(number)
      decreases |requests| - i
    {
      if i == |requests| {
        sent := sent + [max];
        break;
      }
      UpdatesStep(number, requests[i]);
      assert requests[..i + 1] == requests[..i] + [requests[i]];
      number := number + [requests[i]];
      i := i + 1;
      var m := Max2(number);
      if max == m {
        continue;
      }
      max := Max2(number);
      sent := sent + [max];
    }
    assert number == requests;
    MaximumStreamEndsWithMaximum(requests);
  }

  // ---------------------------------------------------------------- SquareRoot

  /** The validation branch of `SquareRoot`. A negative number is rejected
      with `InvalidArgument` and no response; any other number is accepted,
      and the accepted value is the number whose square root is returned. */
  function SquareRoot(number: Int32): (r: Result<nat>)
    ensures r.Err? <==> number < 0
    ensures r.Err? ==> r.status == Status(InvalidArgument, "Recieved a negative number")
    ensures r.Ok? ==> r.value == number
  {
    if number < 0 then Err(Status(InvalidArgument, "Recieved a negative number"))
    else Ok(number)
  }

  /** The client's error call: -3 is an invalid argument. */
  lemma SquareRootClientExample()
    ensures SquareRoot(-3).Err? && SquareRoot(-3).status.code == InvalidArgument
  {
  }
}
