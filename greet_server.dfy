/** The handlers of the greet service: `Greet` (unary), `GreetManyTimes`
    (server-streaming), `LongGreet` (client-streaming), `GreetEveryone`
    (bidirectional) and `GreetWithDeadline` (unary, polls for cancellation).

    A request stream is the finite sequence of the messages the client sends
    before it half-closes; a handler reads it front to back, and reading past
    its end is `Recv` returning `io.EOF`. A response stream is the sequence
    `sent`, to which every `Send` appends one message. */
module GreetServer {
  import opened Rpc
  import Decimal

  /** `Greeting{FirstName, LastName}`. */
  datatype Greeting = Greeting(firstName: string, lastName: string)

  /** Every request of the service carries one `Greeting` field (named
      `Greet` in `GreetManyTimesRequest`, `Greeting` in the others), which
      may be unset. */
  datatype GreetRequest = GreetRequest(greeting: Option<Greeting>)

  /** `req.GetGreeting().GetFirstName()`: "" when the greeting is unset. */
  function FirstName(req: GreetRequest): string {
    match req.greeting
    case None => ""
    case Some(g) => g.firstName
  }

  const Hello: string := "Hello "

  // ---------------------------------------------------------------- Greet

  /** The `Result` of the response: "Hello " followed by the first name and
      nothing else, so the name can be read back after the prefix. */
  function Greet(req: GreetRequest): (result: string)
    ensures |result| == |Hello| + |FirstName(req)|
    ensures result[..|Hello|] == Hello && result[|Hello|..] == FirstName(req)
  {
    Hello + FirstName(req)
  }

  // ---------------------------------------------------------------- GreetManyTimes

  /** The message sent in round i of `GreetManyTimes`. */
  function NumberedGreeting(firstName: string, i: nat): string {
    Hello + firstName + " number " + Decimal.Itoa(i)
  }

  /** Message i reads "Hello <name> number " and then i in decimal, so the
      round number can be read back from it. */
  lemma NumberedGreetingReadsBack(firstName: string, i: nat)
    ensures var m := NumberedGreeting(firstName, i);
            var prefix := Hello + firstName + " number ";
            |m| > |prefix| && m[..|prefix|] == prefix &&
            Decimal.AllDigits(m[|prefix|..]) && Decimal.Atoi(m[|prefix|..]) == i
  {
    var m := NumberedGreeting(firstName, i);
    var prefix := Hello + firstName + " number ";
    assert m[|prefix|..] == Decimal.Itoa(i);
    Decimal.AtoiItoa(i);
  }

  /** Messages of different rounds differ. */
  lemma NumberedGreetingsDistinct(firstName: string, i: nat, j: nat)
    requires i != j
    ensures NumberedGreeting(firstName, i) != NumberedGreeting(firstName, j)
  {
    NumberedGreetingReadsBack(firstName, i);
    NumberedGreetingReadsBack(firstName, j);
  }

  /** The server-streaming handler: exactly ten messages, message i being
      the greeting numbered i, and no two of them alike. */
  method GreetManyTimes(req: GreetRequest) returns (sent: seq<string>)
    ensures |sent| == 10
    ensures forall i :: 0 <= i < 10 ==> sent[i] == NumberedGreeting(FirstName(req), i)
    ensures forall i, j :: 0 <= i < j < 10 ==> sent[i] != sent[j]
  {
    var firstName := FirstName(req);
    sent := [];
    for i := 0 to 10
      invariant |sent| == i
      invariant forall j :: 0 <= j < i ==> sent[j] == NumberedGreeting(firstName, j)
    {
      var result := Hello + firstName + " number " + Decimal.Itoa(i);
      sent := sent + [result];
    }
    forall i, j | 0 <= i < j < 10 ensures sent[i] != sent[j] {
      NumberedGreetingsDistinct(firstName, i, j);
    }
  }

  // ---------------------------------------------------------------- LongGreet

  /** What `fmt.Sprintf("Hello %s \n", firstName)` yields. */
  function GreetLine(firstName: string): string {
    Hello + firstName + " \n"
  }

  /** The value of `result` after the requests `reqs` have been received:
      it starts as " " and each request appends its line. */
  ghost function Accumulated(reqs: seq<GreetRequest>): string
    decreases |reqs|
  {
    if reqs == [] then " "
    else Accumulated(reqs[..|reqs| - 1]) + GreetLine(FirstName(reqs[|reqs| - 1]))
  }

  /** The lines of the requests, one after the other, in arrival order. */
  ghost function Lines(reqs: seq<GreetRequest>): string
    decreases |reqs|
  {
    if reqs == [] then "" else GreetLine(FirstName(reqs[0])) + Lines(reqs[1..])
  }

  lemma {:induction false} LinesAppend(a: seq<GreetRequest>, b: seq<GreetRequest>)
    ensures Lines(a + b) == Lines(a) + Lines(b)
    decreases |a|
  {
    if a == [] {
      assert a + b == b;
    } else {
      assert (a + b)[0] == a[0] && (a + b)[1..] == a[1..] + b;
      LinesAppend(a[1..], b);
    }
  }

  /** The accumulated string is a single space followed by the line of every
      request, in arrival order; an empty stream leaves just " ". */
  lemma {:induction false} AccumulatedIsLines(reqs: seq<GreetRequest>)
    ensures Accumulated(reqs) == " " + Lines(reqs)
    decreases |reqs|
  {
    if reqs != [] {
      var p := reqs[..|reqs| - 1];
      var last := reqs[|reqs| - 1];
      AccumulatedIsLines(p);
      LinesAppend(p, [last]);
      assert p + [last] == reqs;
      assert Lines([last]) == GreetLine(FirstName(last)) by {
        assert [last][1..] == [];
      }
    }
  }

  /** Receiving more requests only extends what is accumulated. */
  lemma AccumulatedExtends(a: seq<GreetRequest>, b: seq<GreetRequest>)
    ensures Accumulated(a + b) == Accumulated(a) + Lines(b)
  {
    calc {
      Accumulated(a + b);
      { AccumulatedIsLines(a + b); }
      " " + Lines(a + b);
      { LinesAppend(a, b); }
      " " + (Lines(a) + Lines(b));
      (" " + Lines(a)) + Lines(b);
      { AccumulatedIsLines(a); }
      Accumulated(a) + Lines(b);
    }
  }

  /** The client-streaming handler. It sends one response, the accumulated
      string, and only once the request stream has ended: `SendAndClose`
      is the only send, and it happens after `Recv` returns `io.EOF`. */
  method LongGreet(requests: seq<GreetRequest>) returns (response: string)
    ensures response == Accumulated(requests)
    ensures response == " " + Lines(requests)
  {
    var result := " ";
    var i := 0;
    while true
      invariant 0 <= i <= |requests|
      invariant result == Accumulated(requests[..i])
      decreases |requests| - i
    {
      if i == |requests| {
        assert requests[..i] == requests;
        AccumulatedIsLines(requests);
        return result;
      }
      var req := requests[i];
      assert requests[..i + 1][..i] == requests[..i];
      i := i + 1;
      result := result + GreetLine(FirstName(req));
    }
  }

  // ---------------------------------------------------------------- GreetEveryone

  /** The reply to one request of `GreetEveryone`. */
  function EveryoneReply(firstName: string): string {
    Hello + firstName + "! "
  }

  /** The bidirectional handler: one response per request, in the same order,
      and nothing more at end of input. */
  method GreetEveryone(requests: seq<GreetRequest>) returns (sent: seq<string>)
    ensures |sent| == |requests|
    ensures forall i :: 0 <= i < |requests| ==> sent[i] == EveryoneReply(FirstName(requests[i]))
  {
    sent := [];
    var i := 0;
    while true
      invariant 0 <= i <= |requests|
      invariant |sent| == i
      invariant forall j :: 0 <= j < i ==> sent[j] == EveryoneReply(FirstName(requests[j]))
      decreases |requests| - i
    {
      if i == |requests| {
        return;
      }
      var req := requests[i];
      i := i + 1;
      var firstName := FirstName(req);
      var result := Hello + firstName + "! ";
      sent := sent + [result];
    }
  }

  // ---------------------------------------------------------------- GreetWithDeadline

  const Polls: nat := 3

  /** The unary handler with cancellation checks. `ctxErr(i)` is what
      `ctx.Err()` returns at the i-th check (0-based), the passing of time
      between checks being left out. The handler fails with `Canceled` and no
      response iff one of its three checks sees `context.Canceled`; a passed
      deadline is not such a check, and then the response is the greeting. */
  method GreetWithDeadline(req: GreetRequest, ctxErr: nat -> ContextErr) returns (r: Result<string>)
    ensures r.Err? <==> exists i :: 0 <= i < Polls && ctxErr(i) == ContextCanceled
    ensures r.Err? ==> r.status == Status(Canceled, "the client cancelled the request")
    ensures r.Ok? ==> r.value == Greet(req)
  {
    for i := 0 to Polls
      invariant forall j :: 0 <= j < i ==> ctxErr(j) != ContextCanceled
    {
      if ctxErr(i) == ContextCanceled {
        return Err(Status(Canceled, "the client cancelled the request"));
      }
    }
    var result := Hello + FirstName(req);
    return Ok(result);
  }
}
