/** Properties of `zip` and of the four named operators. */
module ZipProperties {
  import opened HigherOrderUtils

  /** Once a step throws, every later accumulator is that same exception. */
  lemma {:induction false} AccumulatorKeepsFailure<T>(args: seq<T>, ops: seq<NamedBiFunction<T>>, j: nat, k: nat)
    requires j <= k < |args| && k <= |ops|
    requires Accumulator(args, ops, j).Err?
    ensures Accumulator(args, ops, k) == Accumulator(args, ops, j)
    decreases k
  {
    if j < k {
      AccumulatorKeepsFailure(args, ops, j, k - 1);
    }
  }

  /** With an empty queue the reduce passes every operand over. */
  lemma {:induction false} ReduceEmptyQueue<T>(acc: T, rest: seq<T>)
    ensures Reduce(acc, rest, []) == Ok(acc)
    decreases |rest|
  {
    if rest != [] {
      ReduceEmptyQueue(acc, rest[1..]);
    }
  }

  /** Reducing from step `j` on, with the operators not yet consumed, reaches
      the accumulator after all `Applied` steps. */
  lemma {:induction false} ReduceFromStep<T>(args: seq<T>, ops: seq<NamedBiFunction<T>>, j: nat)
    requires 0 < |args| && j <= Applied(|args|, |ops|)
    requires Accumulator(args, ops, j).Ok?
    ensures Reduce(Accumulator(args, ops, j).value, args[j + 1..], ops[j..])
            == Accumulator(args, ops, Applied(|args|, |ops|))
    decreases |args| - j
  {
    var k := Applied(|args|, |ops|);
    var acc := Accumulator(args, ops, j).value;
    if j == k {
      if j == |ops| {
        ReduceEmptyQueue(acc, args[j + 1..]);
      }
    } else {
      assert args[j + 1..][0] == args[j + 1] && args[j + 1..][1..] == args[j + 2..];
      assert ops[j..][0] == ops[j] && ops[j..][1..] == ops[j + 1..];
      match Accumulator(args, ops, j + 1)
      case Err(e) =>
        AccumulatorKeepsFailure(args, ops, j + 1, k);
      case Ok(_) =>
        ReduceFromStep(args, ops, j + 1);
    }
  }

  /** `zip` throws IllegalArgumentException exactly when there are no
      operators or fewer operands than operators; otherwise it returns the
      left fold over its first `Applied` operators, in list order. */
  lemma ZipIsLeftFold<T>(args: seq<T>, ops: seq<NamedBiFunction<T>>)
    ensures |ops| == 0 || |args| < |ops| ==> Zipped(args, ops) == Err(IllegalArgumentException)
    ensures 0 < |ops| <= |args| ==> Zipped(args, ops) == Accumulator(args, ops, Applied(|args|, |ops|))
  {
    if 0 < |ops| <= |args| {
      ReduceFromStep(args, ops, 0);
    }
  }

  /** An exception in any applied step is what `zip` throws: no partial result. */
  lemma ZipFailureAborts<T>(args: seq<T>, ops: seq<NamedBiFunction<T>>, k: nat)
    requires 0 < |ops| <= |args| && k <= Applied(|args|, |ops|)
    requires Accumulator(args, ops, k).Err?
    ensures Zipped(args, ops) == Accumulator(args, ops, k)
  {
    ZipIsLeftFold(args, ops);
    AccumulatorKeepsFailure(args, ops, k, Applied(|args|, |ops|));
  }

  /** The accumulator after `k` steps depends only on the first `k + 1`
      operands and the first `k` operators. */
  lemma {:induction false} AccumulatorDependsOnPrefix<T>(args: seq<T>, ops: seq<NamedBiFunction<T>>,
                                                        args': seq<T>, ops': seq<NamedBiFunction<T>>, k: nat)
    requires k < |args| && k < |args'| && k <= |ops| && k <= |ops'|
    requires args[..k + 1] == args'[..k + 1] && ops[..k] == ops'[..k]
    ensures Accumulator(args, ops, k) == Accumulator(args', ops', k)
  {
    if k > 0 {
      assert args[..k] == args[..k + 1][..k] && args'[..k] == args'[..k + 1][..k];
      assert ops[..k - 1] == ops[..k][..k - 1] && ops'[..k - 1] == ops'[..k][..k - 1];
      assert args[k] == args[..k + 1][k] && args'[k] == args'[..k + 1][k];
      assert ops[k - 1] == ops[..k][k - 1] && ops'[k - 1] == ops'[..k][k - 1];
      AccumulatorDependsOnPrefix(args, ops, args', ops', k - 1);
    }
  }

  /** Operands beyond index `|ops|` are ignored. */
  lemma ZipIgnoresTrailingOperands<T>(args: seq<T>, ops: seq<NamedBiFunction<T>>)
    requires 0 < |ops| < |args|
    ensures Zipped(args, ops) == Zipped(args[..|ops| + 1], ops)
  {
    var m := |ops|;
    ZipIsLeftFold(args, ops);
    ZipIsLeftFold(args[..m + 1], ops);
    assert args[..m + 1][..m + 1] == args[..m + 1];
    AccumulatorDependsOnPrefix(args, ops, args[..m + 1], ops, m);
  }

  /** With as many operands as operators the last operator is never applied:
      replacing it changes nothing, and dropping it changes nothing either. */
  lemma ZipNeverAppliesLastOperator<T>(args: seq<T>, ops: seq<NamedBiFunction<T>>, other: NamedBiFunction<T>)
    requires 0 < |ops| == |args|
    ensures Zipped(args, ops[..|ops| - 1] + [other]) == Zipped(args, ops)
    ensures 1 < |ops| ==> Zipped(args, ops[..|ops| - 1]) == Zipped(args, ops)
  {
    var m := |ops|;
    var replaced := ops[..m - 1] + [other];
    assert replaced[..m - 1] == ops[..m - 1];
    ZipIsLeftFold(args, ops);
    ZipIsLeftFold(args, replaced);
    AccumulatorDependsOnPrefix(args, ops, args, replaced, m - 1);
    if 1 < m {
      var dropped := ops[..m - 1];
      assert dropped[..m - 1] == ops[..m - 1];
      ZipIsLeftFold(args, dropped);
      AccumulatorDependsOnPrefix(args, ops, args, dropped, m - 1);
    }
  }

  /** A `div` step whose divisor is zero makes `zip` throw ArithmeticException. */
  lemma ZipDivideByZero(args: seq<real>, ops: seq<NamedBiFunction<real>>, k: nat)
    requires 0 < |ops| <= |args| && k < Applied(|args|, |ops|)
    requires Accumulator(args, ops, k).Ok?
    requires ops[k] == Divide && args[k + 1] == 0.0
    ensures Zipped(args, ops) == Err(ArithmeticException)
  {
    assert Accumulator(args, ops, k + 1) == Err(ArithmeticException);
    ZipFailureAborts(args, ops, k + 1);
  }

  /** The example of the documentation comment of `zip`: the accumulators
      run 1, 2, 6, 6, 1 and `zip` returns 1. */
  lemma DocumentedExample()
    ensures var args := [1.0, 1.0, 3.0, 0.0, 4.0];
            var ops := [Add, Multiply, Add, Divide];
            Accumulator(args, ops, 1) == Ok(2.0) && Accumulator(args, ops, 2) == Ok(6.0) &&
            Accumulator(args, ops, 3) == Ok(6.0) && Accumulator(args, ops, 4) == Ok(1.0) &&
            Zipped(args, ops) == Ok(1.0)
  {
    var args := [1.0, 1.0, 3.0, 0.0, 4.0];
    var ops := [Add, Multiply, Add, Divide];
    assert NarrowToInt(6.0 / 4.0) == 1;
    ZipIsLeftFold(args, ops);
  }

  /** What each named operator computes and how it is labelled; `div` throws
      exactly on a zero divisor and otherwise truncates the quotient toward
      zero through an `int`. */
  lemma OperatorTable(a: real, b: real)
    ensures Add.name == "add" && Add.apply(a, b) == Ok(a + b)
    ensures Subtract.name == "diff" && Subtract.apply(a, b) == Ok(a - b)
    ensures Multiply.name == "mult" && Multiply.apply(a, b) == Ok(a * b)
    ensures Divide.name == "div"
    ensures Divide.apply(a, b).Err? <==> b == 0.0
    ensures b == 0.0 ==> Divide.apply(a, b) == Err(ArithmeticException)
    ensures b != 0.0 ==> Divide.apply(a, b) == Ok(NarrowToInt(a / b) as real)
  {
    var product := Multiply.apply(a, b);
    assert product.Ok? && product.value == a * b;
  }

  /** `div` truncates toward zero rather than flooring: 7/2 is 3 and -7/2 is -3. */
  lemma DivideTruncatesTowardZero()
    ensures Divide.apply(7.0, 2.0) == Ok(3.0)
    ensures Divide.apply(-7.0, 2.0) == Ok(-3.0)
  {
  }

  /** `k` copies of one operator. */
  function Repeat<T>(x: T, k: nat): (s: seq<T>)
    ensures |s| == k && forall i :: 0 <= i < k ==> s[i] == x
  {
    if k == 0 then [] else [x] + Repeat(x, k - 1)
  }

  /** Plain left fold of one operator over a list; an exception aborts it.
      `Reduce` folds a queue of operators and `Accumulator` indexes into a
      list of them; this fold takes no operator list at all, so the lemmas
      below can state what `zip` does with `k` copies of one operator as a
      fold of that operator, and then relate that fold to `Sum`. */
  function FoldLeft<T>(op: NamedBiFunction<T>, acc: T, s: seq<T>): Result<T>
    decreases |s|
  {
    if s == [] then Ok(acc)
    else match op.apply(acc, s[0])
      case Err(e) => Err(e)
      case Ok(v) => FoldLeft(op, v, s[1..])
  }

  /** A queue of `k` copies of one operator folds that operator over as many
      operands as the queue is long. */
  lemma {:induction false} ReduceUniformQueue<T>(op: NamedBiFunction<T>, acc: T, rest: seq<T>, k: nat)
    ensures Reduce(acc, rest, Repeat(op, k)) == FoldLeft(op, acc, rest[..Min(k, |rest|)])
    decreases |rest|
  {
    if rest == [] {
    } else if k == 0 {
      ReduceEmptyQueue(acc, rest);
    } else {
      var n := Min(k, |rest|);
      assert Repeat(op, k)[1..] == Repeat(op, k - 1);
      assert rest[..n][0] == rest[0] && rest[..n][1..] == rest[1..][..Min(k - 1, |rest| - 1)];
      match op.apply(acc, rest[0])
      case Err(_) =>
      case Ok(v) =>
        ReduceUniformQueue(op, v, rest[1..], k - 1);
    }
  }

  /** `zip` with `k` copies of one operator is the left fold of that operator
      over the first `Applied` operands after the first. */
  lemma ZipUniform<T>(args: seq<T>, op: NamedBiFunction<T>, k: nat)
    requires 0 < k <= |args|
    ensures Zipped(args, Repeat(op, k)) == FoldLeft(op, args[0], args[1..Applied(|args|, k) + 1])
  {
    ReduceUniformQueue(op, args[0], args[1..], k);
    assert args[1..][..Min(k, |args| - 1)] == args[1..Applied(|args|, k) + 1];
  }

  /** With one operator fewer than operands every operand is folded. */
  lemma ZipUniformFull<T>(args: seq<T>, op: NamedBiFunction<T>)
    requires 1 < |args|
    ensures Zipped(args, Repeat(op, |args| - 1)) == FoldLeft(op, args[0], args[1..])
  {
    var n := |args|;
    ZipUniform(args, op, n - 1);
    assert Applied(n, n - 1) + 1 == n && args[1..n] == args[1..];
  }

  function Sum(s: seq<real>): real
    decreases |s|
  {
    if s == [] then 0.0 else s[0] + Sum(s[1..])
  }

  lemma {:induction false} FoldAddIsSum(acc: real, s: seq<real>)
    ensures FoldLeft(Add, acc, s) == Ok(acc + Sum(s))
    decreases |s|
  {
    if s != [] {
      FoldAddIsSum(acc + s[0], s[1..]);
    }
  }

  lemma {:induction false} FoldSubtractIsDifference(acc: real, s: seq<real>)
    ensures FoldLeft(Subtract, acc, s) == Ok(acc - Sum(s))
    decreases |s|
  {
    if s != [] {
      FoldSubtractIsDifference(acc - s[0], s[1..]);
    }
  }

  /** `zip` over `n` operands with `n - 1` `add` operators returns their sum. */
  lemma ZipOfAddsIsSum(args: seq<real>)
    requires 1 < |args|
    ensures Zipped(args, Repeat(Add, |args| - 1)) == Ok(Sum(args))
  {
    ZipUniformFull(args, Add);
    FoldAddIsSum(args[0], args[1..]);
  }

  /** `zip` over `n` operands with `n - 1` `diff` operators subtracts all the
      others from the first. */
  lemma ZipOfSubtractsIsDifference(args: seq<real>)
    requires 1 < |args|
    ensures Zipped(args, Repeat(Subtract, |args| - 1)) == Ok(args[0] - Sum(args[1..]))
  {
    ZipUniformFull(args, Subtract);
    FoldSubtractIsDifference(args[0], args[1..]);
  }
}
