# Higher-order utilities: named operators, `zip` and composition

A Dafny model of a small Java utility class and its demo:

- `HigherOrderUtils` holds four named binary operators over doubles: `add`, `subtract` (named "diff"), `multiply` ("mult") and `divide` ("div"). It also holds the sequential reducer `zip`. `zip` checks the sizes of its operand and operator lists and copies the operators into a private queue. It then streams over the operands: the first becomes the accumulator, and each later one is combined with it by the operator taken off the front of the queue. Once the queue is empty, the remaining operands are passed over.
- `HigherOrderUtils.FunctionComposition` builds `x -> f(g(x))` from `f` and `g`.
- `Tester.arr` scans a non-empty array for its maximum and keeps the first element that no later element beats strictly.

Files:

- `higher_order_utils.dfy`, module `HigherOrderUtils`, holds the data model and the code:
  - `Result` and `Exception` model Java's thrown exceptions; `OtherException` stands for anything else a caller-supplied operator may throw.
  - `NamedBiFunction` is a record of a label and a function.
  - `Add`, `Subtract`, `Multiply` and `Divide` are the four operators.
  - `NarrowToInt` is the `(int)` cast.
  - `Zip` is the imperative method: it has a copy loop and a scan loop over a shrinking operator queue.
  - `Zipped` and `Reduce` are the pure specification of what `Zip` returns.
  - `Accumulator` is an independent, index-based definition of the left fold: `acc(0) = args[0]` and `acc(k+1) = ops[k](acc(k), args[k+1])`.
- `zip_properties.dfy`, module `ZipProperties`, holds the lemmas about `zip` and the operators.
- `function_composition.dfy`, module `FunctionComposition`, holds composition and its lemmas.
- `tester.dfy`, module `Tester`, holds the max scan `Arr` and its specification `MaxIndex`.

Behaviour of `zip` as the code has it:

- It throws `IllegalArgumentException` when there are no operators, or when there are fewer operands than operators.
- Otherwise, with `n` operands and `m` operators, it applies exactly `min(m, n - 1)` operators, in list order.
- Operands after index `m` are ignored.
- When `n == m`, which the size check allows, the last operator is never applied.
- An exception thrown by an operator, such as `div` with a zero divisor, aborts the whole fold. No partial result is returned.

The documentation comment of `zip` (src/HigherOrderUtils.java:68-86) describes each result being stored back into the operand list. It also says the last slot of that list ends up holding the result of all the operators applied in sequence. The code does neither. It never writes to `args`: only its private copy of the operator list shrinks. With `n == m` it does not apply every operator: it applies `min(m, n - 1)`. The model follows the code.

## Model

| member | source | states |
|---|---|---|
| `HigherOrderUtils.NarrowToInt` | src/HigherOrderUtils.java:64 | the `(int)` cast rounds toward zero: the result lies between 0 and the quotient and is within 1 of it; out of `int` range it saturates at `INT_MAX` or `INT_MIN` |
| `HigherOrderUtils.Zip` | src/HigherOrderUtils.java:88-102 | the copy-then-consume loop returns or throws exactly what `Zipped` specifies; on success the private queue ends as the operators after the first `min(m, n-1)`; on a failed size check the private queue is empty |
| `ZipProperties.ZipIsLeftFold` | src/HigherOrderUtils.java:90-101 | `zip` throws IllegalArgumentException when there are no operators or fewer operands than operators; otherwise it equals the index-based left fold after `min(m, n-1)` steps |
| `ZipProperties.ReduceFromStep` | src/HigherOrderUtils.java:99-101 | resuming the stream reduce after step `j`, with the operators not yet removed from the queue, reaches the left fold's final accumulator |
| `ZipProperties.ReduceEmptyQueue` | src/HigherOrderUtils.java:100 | once the operator copy is empty, every further operand is passed over and the accumulator is returned unchanged |
| `ZipProperties.AccumulatorKeepsFailure` | src/HigherOrderUtils.java:99-100 | once an operator has thrown, every later step yields that same exception |
| `ZipProperties.ZipFailureAborts` | src/HigherOrderUtils.java:99-101 | if any applied step throws, `zip` throws that exception and returns no partial result |
| `ZipProperties.AccumulatorDependsOnPrefix` | src/HigherOrderUtils.java:99-101 | the accumulator after `k` steps depends only on the first `k+1` operands and the first `k` operators |
| `ZipProperties.ZipIgnoresTrailingOperands` | src/HigherOrderUtils.java:100 | operands after index `m` are ignored: `zip(args, ops) == zip(args[..m+1], ops)` |
| `ZipProperties.ZipNeverAppliesLastOperator` | src/HigherOrderUtils.java:90-101 | when `n == m`, replacing the last operator by any other leaves the result of `zip` unchanged, and so does dropping it when there are at least two operators |
| `ZipProperties.ZipDivideByZero` | src/HigherOrderUtils.java:60-62 | a `div` step reached with divisor 0 makes `zip` throw ArithmeticException |
| `ZipProperties.DocumentedExample` | src/HigherOrderUtils.java:73-80 | `[1,1,3,0,4]` with `[add, multiply, add, divide]` passes through the accumulators 2, 6, 6, 1, and `zip` returns 1 |
| `ZipProperties.OperatorTable` | src/HigherOrderUtils.java:16-66 | `add`, `diff` and `mult` return `a+b`, `a-b` and `a*b` and never throw; `div` throws ArithmeticException exactly when the divisor is 0, and otherwise returns the quotient cast to `int`; the four names are "add", "diff", "mult" and "div" |
| `ZipProperties.DivideTruncatesTowardZero` | src/HigherOrderUtils.java:58-65 | `div` truncates toward zero rather than flooring: 7/2 gives 3 and -7/2 gives -3 |
| `ZipProperties.ReduceUniformQueue` | src/HigherOrderUtils.java:99-101 | a queue of `k` copies of one operator folds that operator over as many operands as there are copies, or all of them if there are fewer |
| `ZipProperties.ZipUniform` | src/HigherOrderUtils.java:88-101 | `zip` with `k` copies of one operator is the plain left fold of that operator over operands 1 to `min(k, n-1)` |
| `ZipProperties.ZipUniformFull` | src/HigherOrderUtils.java:88-101 | with `n-1` copies of one operator, `zip` folds that operator over every operand |
| `ZipProperties.FoldAddIsSum` | src/HigherOrderUtils.java:16-26 | folding `add` from an accumulator adds the sum of the operands to it |
| `ZipProperties.FoldSubtractIsDifference` | src/HigherOrderUtils.java:28-38 | folding `subtract` from an accumulator subtracts the sum of the operands from it |
| `ZipProperties.ZipOfAddsIsSum` | src/HigherOrderUtils.java:99-101 | `zip` of `n` operands with `n-1` `add` operators returns their sum |
| `ZipProperties.ZipOfSubtractsIsDifference` | src/HigherOrderUtils.java:99-101 | `zip` of `n` operands with `n-1` `subtract` operators returns the first operand minus the sum of the others |
| `FunctionComposition.CompositionApplies` | src/HigherOrderUtils.java:106-110 | `composition.apply(f, g)(x) == f(g(x))`: `g` runs first, then `f` |
| `FunctionComposition.CompositionAssociative` | src/HigherOrderUtils.java:108-110 | composing `f` with the composition of `g` and `k` gives, at every point, the same value as composing the composition of `f` and `g` with `k` |
| `FunctionComposition.CompositionOrderMatters` | src/HigherOrderUtils.java:109 | swapping `f` and `g` changes the result: with `x+1` and `2x`, one order gives 7 at 3 and the other gives 8 |
| `Tester.MaxIndex` | src/Tester.java:9-20 | the index of the maximum: no element's key exceeds its key, and every earlier element's key is strictly smaller |
| `Tester.MaxIndexUnique` | src/Tester.java:12-18 | those two properties single out one index, so on ties the earliest maximal element is the only answer |
| `Tester.MaxIndexSingleton` | src/Tester.java:11-19 | a one-element array yields its only element |
| `Tester.Arr` | src/Tester.java:9-20 | for a non-empty array, the scan returns the element at `MaxIndex`: an element of the array that no element beats, and the earliest such; the array is only read |

## Left out

- IEEE-754 doubles: operands are exact reals. The model has no rounding in `+`, `-`, `*` or `/`, and no NaN, infinities or negative zero. The `(int)` cast of `divide` is modelled exactly, saturation included, but it is applied to the exact quotient; a rounded double quotient can truncate differently (`100.0 / 0.1` rounds to 1000 while the exact quotient of those two doubles lies just below it).
- The `null` seed of the stream reduce at src/HigherOrderUtils.java:99-100: a `null` operand or a `null` operator result would restart the fold. Only non-null values are modelled.
- Java's `List`, `ArrayList`, `Iterator` and stream machinery. Operand and operator lists are Dafny sequences, which are values. So `zip` leaving the caller's lists unchanged holds by construction, and the private copy is a local sequence that the method shrinks.
- `Tester.main` (src/Tester.java:22-41): it composes `Math.sin` and `Math.cos`, which are floating point in a foreign library, and prints to standard output.
- Tester.Arr: compares elements through an integer `key` in place of `Comparable.compareTo`. The test `compareTo(max) == 1` is modelled as `key(element) > key(max)`, which is faithful only for comparators that return -1, 0 or 1 and are consistent with a total preorder.
- FunctionComposition.CompositionApplies: `f` and `g` are total Dafny functions, so exceptions they might throw, and their propagation out of the composed function, are not modelled.
- The operator names are carried as a field of `NamedBiFunction` and take no part in computation.
