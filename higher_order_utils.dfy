/** Named binary operators over doubles and the sequential reducer `zip`.
    Doubles are modelled as exact reals; the exceptions Java throws are
    modelled as the `Err` case of `Result`. */
module HigherOrderUtils {

  /** The two exceptions this code throws, and any other exception that an
      operator supplied by a caller of `zip` may throw. */
  datatype Exception = IllegalArgumentException | ArithmeticException | OtherException(description: string)

  /** A value, or the exception that aborted the computation. */
  datatype Result<T> = Ok(value: T) | Err(error: Exception)

  /** A binary operator over one type, carrying a label that takes no part
      in computation. Applying it may throw, hence the `Result`. */
  datatype NamedBiFunction<!T> = NamedBiFunction(name: string, apply: (T, T) -> Result<T>)

  /** Bounds of Java's 32-bit `int`. */
  const INT_MIN: int := -0x8000_0000
  const INT_MAX: int := 0x7fff_ffff

  /** The `(int)` cast of a double (narrowing primitive conversion, section
      5.1.3 of the Java Language Specification): round toward zero, and
      saturate at the bounds of `int` when the rounded value does not fit. */
  function NarrowToInt(q: real): (r: int)
    ensures INT_MIN <= r <= INT_MAX
    ensures 0.0 <= q ==> 0.0 <= r as real <= q
    ensures q <= 0.0 ==> q <= r as real <= 0.0
    ensures (INT_MIN - 1) as real < q < (INT_MAX + 1) as real ==> q - 1.0 < r as real < q + 1.0
    ensures (INT_MAX + 1) as real <= q ==> r == INT_MAX
    ensures q <= (INT_MIN - 1) as real ==> r == INT_MIN
  {
    var t := if q >= 0.0 then q.Floor else -((-q).Floor);
    if t > INT_MAX then INT_MAX else if t < INT_MIN then INT_MIN else t
  }

  const Add: NamedBiFunction<real> := NamedBiFunction("add", (o: real, o2: real) => Ok(o + o2))

  const Subtract: NamedBiFunction<real> := NamedBiFunction("diff", (o: real, o2: real) => Ok(o - o2))

  const Multiply: NamedBiFunction<real> := NamedBiFunction("mult", (o: real, o2: real) => Ok(o * o2))

  /** Throws on a zero divisor; otherwise the quotient cast to `int` and back. */
  const Divide: NamedBiFunction<real> :=
    NamedBiFunction("div", (o: real, o2: real) =>
      if o2 == 0.0 then Err(ArithmeticException) else Ok(NarrowToInt(o / o2) as real))

  function Min(a: int, b: int): int {
    if a <= b then a else b
  }

  /** The stream reduce of `zip` once the first operand is the accumulator:
      each remaining operand is combined with the accumulator by the operator
      at the head of the queue, which is then dropped; once the queue is empty
      the remaining operands are passed over. An exception aborts the fold. */
  function Reduce<T>(acc: T, rest: seq<T>, queue: seq<NamedBiFunction<T>>): Result<T>
    decreases |rest|
  {
    if rest == [] then Ok(acc)
    else if queue == [] then Reduce(acc, rest[1..], queue)
    else match queue[0].apply(acc, rest[0])
      case Err(e) => Err(e)
      case Ok(v) => Reduce(v, rest[1..], queue[1..])
  }

  /** What `zip` returns or throws: the size check, then the reduce. */
  function Zipped<T>(args: seq<T>, bifunctions: seq<NamedBiFunction<T>>): Result<T> {
    if |args| < |bifunctions| || |bifunctions| == 0 then Err(IllegalArgumentException)
    else Reduce(args[0], args[1..], bifunctions)
  }

  /** Reference definition of the left fold by index: the accumulator after
      `k` steps, `acc(0) = args[0]` and `acc(k+1) = ops[k](acc(k), args[k+1])`. */
  function Accumulator<T>(args: seq<T>, ops: seq<NamedBiFunction<T>>, k: nat): Result<T>
    requires k < |args| && k <= |ops|
  {
    if k == 0 then Ok(args[0])
    else match Accumulator(args, ops, k - 1)
      case Err(e) => Err(e)
      case Ok(acc) => ops[k - 1].apply(acc, args[k])
  }

  /** The number of operators `zip` applies to `n` operands and `m` operators. */
  function Applied(n: nat, m: nat): nat
    requires 0 < n
  {
    Min(m, n - 1)
  }

  /** `zip`: check the sizes, copy the operators into a private queue, then
      scan the operands, taking one operator off the front of the queue per
      operand while the queue lasts. `remaining` is the queue at the end. */
  method Zip<T>(args: seq<T>, bifunctions: seq<NamedBiFunction<T>>)
      returns (r: Result<T>, ghost remaining: seq<NamedBiFunction<T>>)
    ensures r == Zipped(args, bifunctions)
    ensures |args| < |bifunctions| || |bifunctions| == 0 ==> remaining == []
    ensures 0 < |bifunctions| <= |args| && r.Ok? ==>
              remaining == bifunctions[Applied(|args|, |bifunctions|)..]
  {
    remaining := [];
    if |args| < |bifunctions| || |bifunctions| == 0 {
      r := Err(IllegalArgumentException);
      return;
    }
    var arr: seq<NamedBiFunction<T>> := [];
    for j := 0 to |bifunctions|
      invariant arr == bifunctions[..j]
    {
      arr := arr + [bifunctions[j]];
    }
    var acc := args[0];
    var i := 1;
    while i < |args|
      invariant 1 <= i <= |args|
      invariant arr == bifunctions[Min(|bifunctions|, i - 1)..]
      invariant Reduce(acc, args[i..], arr) == Zipped(args, bifunctions)
    {
      if arr != [] {
        var step := arr[0].apply(acc, args[i]);
        arr := arr[1..];
        if step.Err? {
          r, remaining := Err(step.error), arr;
          return;
        }
        acc := step.value;
      }
      i := i + 1;
    }
    r, remaining := Ok(acc), arr;
  }
}
