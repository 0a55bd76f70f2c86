# Fibonacci generator, verified model

The modelled function is `fibonacci(n)` in
`fibonacci.py`: it returns the first `n` Fibonacci numbers as a list. It
raises `ValueError("n must be non-negative")` for a negative `n`. It returns
`[]`, `[0]` and `[0, 1]` directly for `n = 0, 1, 2`. Otherwise it starts
from `[0, 1]` and, for `i` from 2 to `n - 1`, appends the sum of elements
`i - 1` and `i - 2`.

The project has two modules:

- `FibSpec` (`fib_spec.dfy`): the reference meaning. `Fib(i)` is the i-th
  Fibonacci number by its recursive definition. `FirstFibs(n)` is the
  sequence of the first `n` of them. The predicate `Recurrent` says a
  sequence opens with 0, 1 and every later element is the sum of the two
  before it. The lemmas prove the prefix property, that the recurrence
  and the sequence determine each other, and the concrete values the unit tests expect.
- `Fibonacci` (`fibonacci.dfy`): the generator itself. `Generate` is a
  method with the same branches as the source and a loop over a growing
  `seq<nat>`. The exception becomes `Err(ValueError(message))` in a
  `Result`. Python's unbounded integers become `nat`, so no overflow arises.

Because `Generate` is proved to return `Ok(FirstFibs(n))` for every `n >= 0`,
each lemma about `FirstFibs` holds of the generator's results too.

## Model

| member | source | states |
|---|---|---|
| Fibonacci.Generate | fibonacci.py:1-27 | A negative `n` gives the ValueError with the source's message and no list, and only a negative `n` does. Otherwise the list has exactly `n` elements, element `j` is the j-th Fibonacci number, it opens with 0, 1 and obeys the sum-of-previous-two recurrence, and it equals the first `n` Fibonacci numbers. |
| FibSpec.FirstFibs | fibonacci.py:3-9 | The first `n` Fibonacci numbers: exactly `n` elements, and element `j` is the j-th Fibonacci number. |
| FibSpec.FirstFibsPrefix | fibonacci.py:3 | For `n <= m`, the first `n` numbers are a prefix of the first `m` numbers. |
| FibSpec.RecurrentElementIsFib | fibonacci.py:23-25 | In any sequence seeded with 0, 1 and extended by summing the last two, element `j` is the j-th Fibonacci number. |
| FibSpec.RecurrentIsFirstFibs | fibonacci.py:23-25 | A sequence that follows the seed-and-sum rule of the loop is exactly the first `|s|` Fibonacci numbers, so the rule determines the result completely. |
| FibSpec.FirstFibsIsRecurrent | fibonacci.py:23-25 | Conversely, the first `n` Fibonacci numbers open with 0, 1 and each later one is the sum of the two before it. |
| FibSpec.BaseCases | fibonacci.py:16-21 | The special-cased answers `[]`, `[0]` and `[0, 1]` are the first 0, 1 and 2 Fibonacci numbers. |
| FibSpec.StartsWithZeroOne | fibonacci.py:23 | With at least two elements, the sequence starts with 0 and then 1. |
| FibSpec.FirstFiveAndTen | test_fibonacci.py:23-33 | The first five numbers are `[0, 1, 1, 2, 3]` and the first ten are `[0, 1, 1, 2, 3, 5, 8, 13, 21, 34]`. |
| FibSpec.LastOfFifteen | test_fibonacci.py:40-46 | The first fifteen numbers have length 15 and end with 233 and then 377. |

## Left out

- The `__main__` block of `fibonacci.py` (lines 30-34) only prints examples; printing is outside the model.
- The unittest scaffolding of `test_fibonacci.py` is not modelled; its assertions are stated as the lemmas above, including the negative case as part of `Generate`'s contract.
- Arguments that are not integers (a float or a string would make Python raise a TypeError or behave differently) are outside the model: `Generate` takes an `int`.
- The prefix property is stated about `FirstFibs`; a lemma cannot call a method, so it reaches `Generate` through `Generate`'s promise that its result is `FirstFibs(n)`.
