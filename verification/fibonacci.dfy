/**
 The generator `fibonacci(n)`: it refuses a negative count, answers the
 counts 0, 1 and 2 directly, and otherwise grows a list from [0, 1] by
 appending the sum of its last two elements until it holds n numbers.
 */
module Fibonacci {
  import opened FibSpec

  /** The exception the generator raises; it carries the message text. */
  datatype Error = ValueError(message: string)

  datatype Result<T> = Ok(value: T) | Err(error: Error)

  const NegativeMessage: string := "n must be non-negative"

  /** The first n Fibonacci numbers, or a ValueError when n is negative. */
  method Generate(n: int) returns (r: Result<seq<nat>>)
    ensures n < 0 <==> r.Err?
    ensures n < 0 ==> r == Err(ValueError(NegativeMessage))
    ensures r.Ok? ==> |r.value| == n
    ensures r.Ok? ==> IsFibPrefix(r.value)
    ensures r.Ok? ==> Recurrent(r.value)
    ensures 0 <= n ==> r == Ok(FirstFibs(n))
  {
    if n < 0 {
      return Err(ValueError(NegativeMessage));
    }
    BaseCases();
    if n == 0 {
      return Ok([]);
    } else if n == 1 {
      return Ok([0]);
    } else if n == 2 {
      return Ok([0, 1]);
    }

    var fibSequence: seq<nat> := [0, 1];
    var i := 2;
    while i < n
      invariant 2 <= i <= n
      invariant fibSequence == FirstFibs(i)
    {
      fibSequence := fibSequence + [fibSequence[i - 1] + fibSequence[i - 2]];
      i := i + 1;
    }
    return Ok(fibSequence);
  }
}
